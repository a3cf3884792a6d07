/** The records the game is built from: users, cases with their evidence, and
    the verdicts players submit. */
module Types {
  import opened Wrappers

  datatype User = User(id: string, username: string)

  /** The categorical ruling attached to a verdict. */
  datatype Stance = Guilty | Innocent | Esh

  /** One clue of a case; `isRevealed` starts false. */
  datatype Evidence = Evidence(id: string, title: string, content: string, isRevealed: bool)

  /** A daily case. `id` is the UTC date key `YYYY-MM-DD` of its day and
      `createdAt` is an epoch time in milliseconds. */
  datatype Case = Case(
    id: string,
    title: string,
    description: string,
    plaintiff: string,
    defendant: string,
    evidence: seq<Evidence>,
    createdAt: int)

  /** One player's ruling on a case. The stance is optional because the
      submitting client never sets it. */
  datatype Verdict = Verdict(
    id: string,
    caseId: string,
    author: string,
    text: string,
    stance: Option<Stance>,
    votes: int)

  /** Every clue has been examined; vacuously true of no clues. */
  predicate AllRevealed(evidence: seq<Evidence>)
  {
    forall i :: 0 <= i < |evidence| ==> evidence[i].isRevealed
  }
}
