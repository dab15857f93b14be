/**
 The fixture and the scenarios of the user-operation tests, stated as
 lemmas over the model. The fixture registers AshKetchum and then Misty
 on an empty session; the tests read Ash back as record 0 and Misty as
 record 1. The password hashing policy stays a parameter throughout.
 */
module UserOperationsScenarios {
  import opened UserRecord
  import opened DatabaseSession
  import opened Users

  const Ash := Signup("AshKetchum", "pallettown123", "000000000000")
  const Misty := Signup("Misty", "cerulean456", "111111111111")

  /** The session after the fixture's two registrations. */
  function SetUp(hash: string -> string): (s: Session<User>)
    ensures |s.things| == 2 && s.didCommit
  {
    RegisterAll(Empty(), [Ash, Misty], hash)
  }

  /** Ash is record 0, Misty record 1, both fresh, and the session is committed. */
  lemma SetUpShape(hash: string -> string)
    ensures var s := SetUp(hash);
      && |s.things| == 2
      && s.didCommit
      && s.things[0] == SignupUser(Ash, hash)
      && s.things[1] == SignupUser(Misty, hash)
      && HoldsUser(s, 0) && HoldsUser(s, 1)
  {
    RegisterAllInOrder(Empty(), [Ash, Misty], hash);
  }

  lemma RegistrationScenario(hash: string -> string)
    ensures |SetUp(hash).things| == 2
    ensures SetUp(hash).things[0].username == "AshKetchum"
    ensures SetUp(hash).things[1].username == "Misty"
    ensures SetUp(hash).didCommit
  {
    SetUpShape(hash);
  }

  lemma NewUserHasntCaughtScenario(hash: string -> string)
    ensures HoldsUser(SetUp(hash), 0)
    ensures StateOf(SetUp(hash).things[0], 25) == Uncaught
  {
    SetUpShape(hash);
  }

  lemma CatchingScenario(hash: string -> string)
    ensures HoldsUser(SetUp(hash), 0)
    ensures StateOf(CatchPokemonForUser(SetUp(hash), 0, 25).things[0], 25) == Caught
  {
    SetUpShape(hash);
  }

  lemma CatchingThenReleasingScenario(hash: string -> string)
    ensures HoldsUser(SetUp(hash), 0)
    ensures var s := CatchPokemonForUser(SetUp(hash), 0, 25);
      StateOf(UncatchPokemonForUser(s, 0, 25).things[0], 25) == Uncaught
  {
    SetUpShape(hash);
  }

  lemma NeitherCaughtScenario(hash: string -> string)
    ensures HoldsUser(SetUp(hash), 0) && HoldsUser(SetUp(hash), 1)
    ensures var s := SetUp(hash);
      Compare(s.things[0], s.things[1], 24) == NeitherCaught
  {
    SetUpShape(hash);
  }

  lemma FirstCaughtScenario(hash: string -> string)
    ensures HoldsUser(SetUp(hash), 0) && HoldsUser(SetUp(hash), 1)
    ensures var s := CatchPokemonForUser(SetUp(hash), 0, 25);
      Compare(s.things[0], s.things[1], 24) == FirstCaught
  {
    SetUpShape(hash);
  }

  lemma SecondCaughtScenario(hash: string -> string)
    ensures HoldsUser(SetUp(hash), 0) && HoldsUser(SetUp(hash), 1)
    ensures var s := CatchPokemonForUser(SetUp(hash), 1, 116);
      Compare(s.things[0], s.things[1], 115) == SecondCaught
  {
    SetUpShape(hash);
  }

  lemma BothCaughtScenario(hash: string -> string)
    ensures HoldsUser(SetUp(hash), 0) && HoldsUser(SetUp(hash), 1)
    ensures var s := CatchPokemonForUser(CatchPokemonForUser(SetUp(hash), 0, 128), 1, 128);
      Compare(s.things[0], s.things[1], 127) == BothCaught
  {
    SetUpShape(hash);
  }
}
