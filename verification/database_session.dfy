/**
 The persistence collaborator, as far as its behaviour can be observed:
 a log of the records handed to `add`, in call order, and a flag that
 `commit` raises. Durability itself is not modelled.
 */
module DatabaseSession {

  datatype Session<T> = Session(things: seq<T>, didCommit: bool)

  /** A fresh session: nothing added, nothing committed. */
  function Empty<T>(): (s: Session<T>)
    ensures |s.things| == 0
    ensures !s.didCommit
  {
    Session([], false)
  }

  /** Queues `thing`: it becomes the last record, everything earlier stays put. */
  function Add<T>(s: Session<T>, thing: T): (r: Session<T>)
    ensures |r.things| == |s.things| + 1
    ensures r.things[..|s.things|] == s.things
    ensures r.things[|s.things|] == thing
    ensures r.didCommit == s.didCommit
  {
    s.(things := s.things + [thing])
  }

  /** Raises the commit flag; the log of records is left as it was. */
  function Commit<T>(s: Session<T>): (r: Session<T>)
    ensures r.things == s.things
    ensures r.didCommit
  {
    s.(didCommit := true)
  }

  /** Committing twice is observably the same as committing once. */
  lemma CommitIdempotent<T>(s: Session<T>)
    ensures Commit(Commit(s)) == Commit(s)
  {
  }
}
