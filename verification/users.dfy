/**
 The user database: registration, per-species capture state, and the
 comparison of two users' states for one species.

 Catch, release and the state query address a species by its 1-based
 catalog number; the comparison takes a 0-based index into the capture
 container. Both conventions are kept exactly as they are observed.

 The Python operations mutate a user object that the session also holds.
 Here the user is named by its position `k` in the session's log, and the
 operation returns the session with that record replaced.
 */
module Users {
  import opened UserRecord
  import opened DatabaseSession

  datatype CapturedState = Uncaught | Caught

  datatype ComparisonResult = NeitherCaught | FirstCaught | SecondCaught | BothCaught
  {
    /** The first user of the compared pair holds the species. */
    predicate FirstHas() {
      FirstCaught? || BothCaught?
    }

    /** The second user of the compared pair holds the species. */
    predicate SecondHas() {
      SecondCaught? || BothCaught?
    }
  }

  // ---------------------------------------------------------------------
  // Capture state of one user

  /** The state of species `n` (1-based) for `u`: it is held in container slot `n - 1`. */
  function StateOf(u: User, n: int): (st: CapturedState)
    requires u.Valid() && IsCatalogNumber(n)
    ensures st == Caught <==> u.caught[n - 1]
  {
    if u.caught[n - 1] then Caught else Uncaught
  }

  /** Writes `st` into the slot of species `n` (1-based). */
  function SetState(u: User, n: int, st: CapturedState): (r: User)
    requires u.Valid() && IsCatalogNumber(n)
    ensures r.Valid() && r.SameIdentity(u)
    ensures StateOf(r, n) == st
    ensures forall m :: IsCatalogNumber(m) && m != n ==> StateOf(r, m) == StateOf(u, m)
  {
    u.(caught := u.caught[n - 1 := st == Caught])
  }

  /** Marks species `n` (1-based) as caught, leaving every other slot alone. */
  function Catch(u: User, n: int): (r: User)
    requires u.Valid() && IsCatalogNumber(n)
    ensures r.Valid() && r.SameIdentity(u)
    ensures StateOf(r, n) == Caught
    ensures forall m :: IsCatalogNumber(m) && m != n ==> StateOf(r, m) == StateOf(u, m)
  {
    SetState(u, n, Caught)
  }

  /** Marks species `n` (1-based) as not caught, leaving every other slot alone. */
  function Uncatch(u: User, n: int): (r: User)
    requires u.Valid() && IsCatalogNumber(n)
    ensures r.Valid() && r.SameIdentity(u)
    ensures StateOf(r, n) == Uncaught
    ensures forall m :: IsCatalogNumber(m) && m != n ==> StateOf(r, m) == StateOf(u, m)
  {
    SetState(u, n, Uncaught)
  }

  /** A user is determined by identity and the state of every species. */
  lemma UserExtensionality(u: User, v: User)
    requires u.Valid() && v.Valid() && u.SameIdentity(v)
    requires forall n :: IsCatalogNumber(n) ==> StateOf(u, n) == StateOf(v, n)
    ensures u == v
  {
    forall i | 0 <= i < N
      ensures u.caught[i] == v.caught[i]
    {
      assert StateOf(u, i + 1) == StateOf(v, i + 1);
    }
  }

  /** A freshly created user has caught nothing. */
  lemma NewUserCaughtNothing(username: string, hashedPassword: string, identifier: string, n: int)
    requires IsCatalogNumber(n)
    ensures StateOf(NewUser(username, hashedPassword, identifier), n) == Uncaught
  {
  }

  /** Catching an already caught species changes nothing. */
  lemma CatchIdempotent(u: User, n: int)
    requires u.Valid() && IsCatalogNumber(n)
    ensures Catch(Catch(u, n), n) == Catch(u, n)
  {
  }

  /** Releasing a species that is not caught changes nothing. */
  lemma UncatchIdempotent(u: User, n: int)
    requires u.Valid() && IsCatalogNumber(n)
    ensures Uncatch(Uncatch(u, n), n) == Uncatch(u, n)
  {
  }

  /**
   Catch then release returns the slot to Uncaught and leaves no history:
   the user is exactly as if the species had only been released, and it is
   the user it was before when the species had not been caught.
   */
  lemma UncatchAfterCatch(u: User, n: int)
    requires u.Valid() && IsCatalogNumber(n)
    ensures StateOf(Uncatch(Catch(u, n), n), n) == Uncaught
    ensures Uncatch(Catch(u, n), n) == Uncatch(u, n)
    ensures StateOf(u, n) == Uncaught ==> Uncatch(Catch(u, n), n) == u
  {
  }

  /** Release then catch, symmetrically. */
  lemma CatchAfterUncatch(u: User, n: int)
    requires u.Valid() && IsCatalogNumber(n)
    ensures Catch(Uncatch(u, n), n) == Catch(u, n)
    ensures StateOf(u, n) == Caught ==> Catch(Uncatch(u, n), n) == u
  {
  }

  // ---------------------------------------------------------------------
  // Comparison

  /** The four-way classification of a pair of capture states. */
  function Classify(first: CapturedState, second: CapturedState): (r: ComparisonResult)
    ensures r.FirstHas() <==> first == Caught
    ensures r.SecondHas() <==> second == Caught
  {
    match (first, second)
    case (Uncaught, Uncaught) => NeitherCaught
    case (Caught, Uncaught) => FirstCaught
    case (Uncaught, Caught) => SecondCaught
    case (Caught, Caught) => BothCaught
  }

  /** The pair of states a comparison result stands for; inverse of `Classify`. */
  function Split(r: ComparisonResult): (p: (CapturedState, CapturedState))
    ensures Classify(p.0, p.1) == r
  {
    (if r.FirstHas() then Caught else Uncaught,
     if r.SecondHas() then Caught else Uncaught)
  }

  /** `Classify` loses nothing: distinct pairs give distinct results. */
  lemma ClassifySplitRoundTrip(first: CapturedState, second: CapturedState)
    ensures Split(Classify(first, second)) == (first, second)
  {
  }

  /**
   Compares the two users at the 0-based container index `i`, that is at
   species number `i + 1`.
   */
  function Compare(a: User, b: User, i: int): (r: ComparisonResult)
    requires a.Valid() && b.Valid() && IsCatalogIndex(i)
    ensures r.FirstHas() <==> StateOf(a, i + 1) == Caught
    ensures r.SecondHas() <==> StateOf(b, i + 1) == Caught
  {
    Classify(if a.caught[i] then Caught else Uncaught,
             if b.caught[i] then Caught else Uncaught)
  }

  /** The comparison at index `n - 1` is the classification of the states at number `n`. */
  lemma CompareAtNumber(a: User, b: User, n: int)
    requires a.Valid() && b.Valid() && IsCatalogNumber(n)
    ensures Compare(a, b, n - 1) == Classify(StateOf(a, n), StateOf(b, n))
  {
  }

  /** The result with the roles of the two users exchanged. */
  function Swapped(r: ComparisonResult): (s: ComparisonResult)
    ensures s.FirstHas() == r.SecondHas() && s.SecondHas() == r.FirstHas()
  {
    match r
    case NeitherCaught => NeitherCaught
    case FirstCaught => SecondCaught
    case SecondCaught => FirstCaught
    case BothCaught => BothCaught
  }

  /** Exchanging the users exchanges FirstCaught and SecondCaught and fixes the rest. */
  lemma CompareSwap(a: User, b: User, i: int)
    requires a.Valid() && b.Valid() && IsCatalogIndex(i)
    ensures Compare(b, a, i) == Swapped(Compare(a, b, i))
    ensures Compare(a, b, i) == NeitherCaught <==> Compare(b, a, i) == NeitherCaught
    ensures Compare(a, b, i) == BothCaught <==> Compare(b, a, i) == BothCaught
  {
  }

  // ---------------------------------------------------------------------
  // Operations through the session

  /** What registration yields: the new user and the session it was handed to. */
  datatype Registration = Registration(user: User, session: Session<User>)

  /**
   Registers a user: builds it with nothing caught, adds it to the session
   and commits. The password is stored only as `hash(rawPassword)`; the
   hashing policy is a parameter.
   */
  function RegisterUser(s: Session<User>, username: string, rawPassword: string,
                        identifier: string, hash: string -> string): (r: Registration)
    ensures r.session.things == s.things + [r.user]
    ensures r.session.didCommit
    ensures r.user.Valid()
    ensures r.user.username == username && r.user.identifier == identifier
    ensures r.user.hashedPassword == hash(rawPassword)
    ensures forall n :: IsCatalogNumber(n) ==> StateOf(r.user, n) == Uncaught
  {
    var u := NewUser(username, hash(rawPassword), identifier);
    Registration(u, Commit(Add(s, u)))
  }

  /** The session's record at position `k` is a well-formed user. */
  predicate HoldsUser(s: Session<User>, k: int) {
    0 <= k < |s.things| && s.things[k].Valid()
  }

  /**
   Writes `st` for species `n` (1-based) into the user at position `k`
   of the session, then commits.
   */
  function SetStateForUser(s: Session<User>, k: int, n: int, st: CapturedState): (r: Session<User>)
    requires HoldsUser(s, k) && IsCatalogNumber(n)
    ensures |r.things| == |s.things| && r.didCommit
    ensures forall j :: 0 <= j < |s.things| && j != k ==> r.things[j] == s.things[j]
    ensures HoldsUser(r, k) && r.things[k].SameIdentity(s.things[k])
    ensures StateOf(r.things[k], n) == st
    ensures forall m :: IsCatalogNumber(m) && m != n ==>
              StateOf(r.things[k], m) == StateOf(s.things[k], m)
  {
    Commit(s.(things := s.things[k := SetState(s.things[k], n, st)]))
  }

  /** Catches species `n` (1-based) for the user at position `k`, then commits. */
  function CatchPokemonForUser(s: Session<User>, k: int, n: int): (r: Session<User>)
    requires HoldsUser(s, k) && IsCatalogNumber(n)
    ensures |r.things| == |s.things| && r.didCommit
    ensures forall j :: 0 <= j < |s.things| && j != k ==> r.things[j] == s.things[j]
    ensures HoldsUser(r, k) && r.things[k].SameIdentity(s.things[k])
    ensures StateOf(r.things[k], n) == Caught
    ensures forall m :: IsCatalogNumber(m) && m != n ==>
              StateOf(r.things[k], m) == StateOf(s.things[k], m)
  {
    SetStateForUser(s, k, n, Caught)
  }

  /** Releases species `n` (1-based) for the user at position `k`, then commits. */
  function UncatchPokemonForUser(s: Session<User>, k: int, n: int): (r: Session<User>)
    requires HoldsUser(s, k) && IsCatalogNumber(n)
    ensures |r.things| == |s.things| && r.didCommit
    ensures forall j :: 0 <= j < |s.things| && j != k ==> r.things[j] == s.things[j]
    ensures HoldsUser(r, k) && r.things[k].SameIdentity(s.things[k])
    ensures StateOf(r.things[k], n) == Uncaught
    ensures forall m :: IsCatalogNumber(m) && m != n ==>
              StateOf(r.things[k], m) == StateOf(s.things[k], m)
  {
    SetStateForUser(s, k, n, Uncaught)
  }

  /** The session-level catch updates the stored user exactly as `Catch` would. */
  lemma CatchPokemonForUserIsCatch(s: Session<User>, k: int, n: int)
    requires HoldsUser(s, k) && IsCatalogNumber(n)
    ensures CatchPokemonForUser(s, k, n).things[k] == Catch(s.things[k], n)
  {
  }

  /** The session-level release updates the stored user exactly as `Uncatch` would. */
  lemma UncatchPokemonForUserIsUncatch(s: Session<User>, k: int, n: int)
    requires HoldsUser(s, k) && IsCatalogNumber(n)
    ensures UncatchPokemonForUser(s, k, n).things[k] == Uncatch(s.things[k], n)
  {
  }

  // ---------------------------------------------------------------------
  // Several registrations in a row

  /** The arguments of one `RegisterUser` call. */
  datatype Signup = Signup(username: string, rawPassword: string, identifier: string)

  /** The user a signup produces. */
  function SignupUser(su: Signup, hash: string -> string): (u: User)
    ensures u.Valid() && u.username == su.username && u.identifier == su.identifier
    ensures u.hashedPassword == hash(su.rawPassword)
    ensures forall n :: IsCatalogNumber(n) ==> StateOf(u, n) == Uncaught
  {
    NewUser(su.username, hash(su.rawPassword), su.identifier)
  }

  /** Registers every signup, first to last, threading the session through. */
  function RegisterAll(s: Session<User>, signups: seq<Signup>, hash: string -> string): (r: Session<User>)
    ensures |r.things| == |s.things| + |signups|
    ensures r.didCommit <==> s.didCommit || |signups| > 0
    decreases |signups|
  {
    if |signups| == 0 then s
    else
      var r := RegisterUser(s, signups[0].username, signups[0].rawPassword, signups[0].identifier, hash);
      RegisterAll(r.session, signups[1..], hash)
  }

  /**
   Successive registrations land in the session in call order, after
   whatever was there before, and the session is committed iff it already
   was or something was registered.
   */
  lemma {:induction false} RegisterAllInOrder(s: Session<User>, signups: seq<Signup>, hash: string -> string)
    ensures var r := RegisterAll(s, signups, hash);
      && |r.things| == |s.things| + |signups|
      && r.things[..|s.things|] == s.things
      && (forall i :: 0 <= i < |signups| ==> r.things[|s.things| + i] == SignupUser(signups[i], hash))
      && (r.didCommit <==> s.didCommit || |signups| > 0)
    decreases |signups|
  {
    if |signups| > 0 {
      var reg := RegisterUser(s, signups[0].username, signups[0].rawPassword, signups[0].identifier, hash);
      RegisterAllInOrder(reg.session, signups[1..], hash);
      var r := RegisterAll(s, signups, hash);
      assert r == RegisterAll(reg.session, signups[1..], hash);
      assert |reg.session.things| == |s.things| + 1;
      assert r.things[..|s.things|] == r.things[..|s.things| + 1][..|s.things|];
      forall i | 0 <= i < |signups|
        ensures r.things[|s.things| + i] == SignupUser(signups[i], hash)
      {
        if i > 0 {
          assert signups[1..][i - 1] == signups[i];
          assert r.things[|reg.session.things| + (i - 1)] == SignupUser(signups[1..][i - 1], hash);
        } else {
          assert r.things[..|s.things| + 1][|s.things|] == reg.user;
        }
      }
    }
  }
}
