/**
 The user record: identity fields plus one capture bit per catalog entry.

 The catalog size is a fixed constant of the program. Its value is not
 visible here; the only thing known about it is that catalog number 128
 is a valid species, so the model keeps `N` abstract with `N >= 128`
 and every proof holds for any such size.
 */
module UserRecord {

  /** Every catalog size the model admits. */
  type CatalogSize = n: nat | 128 <= n witness 128

  /** Number of species in the catalog. */
  const N: CatalogSize

  /** A conventional species number: 1-based, as used by catch and release. */
  predicate IsCatalogNumber(n: int) {
    1 <= n <= N
  }

  /** A position in the capture container: 0-based, as used by comparison. */
  predicate IsCatalogIndex(i: int) {
    0 <= i < N
  }

  /**
   A registered user. `hashedPassword` and `identifier` are opaque strings;
   `caught[i]` is true exactly when species number `i + 1` has been caught.
   */
  datatype User = User(
    username: string,
    hashedPassword: string,
    identifier: string,
    caught: seq<bool>)
  {
    /** The capture container always covers the whole catalog. */
    predicate Valid() {
      |caught| == N
    }

    /** Same person: every identity field agrees, capture bits aside. */
    predicate SameIdentity(other: User) {
      && username == other.username
      && hashedPassword == other.hashedPassword
      && identifier == other.identifier
    }
  }

  /** A user as created at registration: nothing caught yet. */
  function NewUser(username: string, hashedPassword: string, identifier: string): (u: User)
    ensures u.Valid()
    ensures u.username == username
    ensures u.hashedPassword == hashedPassword
    ensures u.identifier == identifier
    ensures forall i :: IsCatalogIndex(i) ==> !u.caught[i]
  {
    User(username, hashedPassword, identifier, seq(N, _ => false))
  }
}
