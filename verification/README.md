# Reddit Jury: court store and client state, modelled in Dafny

Reddit Jury is a daily mini-game. Each day has one fictional court *case*.
Players submit a short *verdict* on it, and other players up-vote verdicts.
This project models the in-memory court store and the state updates the
client applies on top of it:

- `court.dfy` (module `Court`) models the store, `DevvitMockService`. It holds
  a collection of cases and a collection of verdicts. Its operations look up
  today's case, append a case, list a case's verdicts ranked by votes, submit
  a verdict (one per author and case) and apply a vote. Every operation is a
  pure function that returns the new store, and `Result` carries the errors
  the service throws.
- `ranking.dfy` (module `Ranking`) models the sort by votes, highest first.
  The host's sort is stable. It is written as an insertion sort, and the
  module proves that any stable ranking gives exactly this result.
- `app.dfy` (module `App`) models the client view state. It covers loading
  today's case, the countdown to the next UTC midnight, submitting a verdict,
  re-ranking after a vote, which footer is shown, and storing a generated case.
- `verdict_list.dfy` (module `VerdictList`) models the up-vote handler of the
  verdict list and how it feeds the view's vote handler.
- `drafts.dfy` (module `Drafts`) models how the authoring service's answer
  becomes a case draft: clues re-keyed `ev-<index>` and hidden, or a fixed
  fallback draft on any failure.
- `types.dfy`, `wrappers.dfy`, `text.dfy` and `seed.dfy` hold the records,
  `Option`/`Result`, the host's `trim` and decimal rendering, and the seed data
  with the current user.

Some values are parameters rather than being computed:

- "today", the UTC `YYYY-MM-DD` key;
- "now", in epoch milliseconds;
- the random id of a new verdict;
- the authoring service's parsed answer.

The store invariant `Court.Valid` says that no two verdicts share a case and
an author. Submitting, voting and creating a case all preserve it, and the
seed store satisfies it.

Behaviours of the code the model keeps deliberately:

- A case is appended even when today's key is already taken; it is not
  rejected.
- The store does not check a verdict's text for emptiness or length. Only the
  client rejects blank text, and only the input box caps the length at 140.
- A new verdict starts at 0 votes, as the client builds it.
- A vote changes the first verdict with the given id. The client's vote
  handler changes every shown verdict with that id.

## Model

| member | source | states |
|---|---|---|
| Court.GetTodayCase | services/devvitService.ts:31-36 | today's case exists exactly when some stored case has today's key; it is then the first such case |
| Court.CreateCase | services/devvitService.ts:38-43 | the case list grows by one, earlier cases are unchanged, the new case is last, verdicts untouched |
| Court.CreateCaseTodayCase | services/devvitService.ts:35-41 | creating a case never changes an existing today's case; with none, the new case becomes today's exactly when its id is today's key |
| Court.CreateCasePreservesValid | services/devvitService.ts:38-43 | case creation keeps one verdict per author and case |
| Court.GetVerdictsForCase | services/devvitService.ts:45-51 | the result is a permutation of the verdicts on that case, ranked by votes highest first, with ties in storage order |
| Ranking.SortByVotes | services/devvitService.ts:50 | the ranking is sorted by votes (non-increasing) and is a permutation of its input |
| Ranking.SortByVotesStable | services/devvitService.ts:50 | for every vote count, the ranking lists the verdicts with that count in input order (stability) |
| Ranking.StableRankingUnique | services/devvitService.ts:50 | two sequences sorted by votes that agree on every group of ties are equal |
| Ranking.StableRankingCharacterised | services/devvitService.ts:48-50 | a sequence is the ranking of the input exactly when it is sorted by votes and keeps every group of ties in input order |
| Ranking.SortByVotesIdempotent | App.tsx:113 | ranking an already ranked list leaves it unchanged |
| Court.Message | services/devvitService.ts:59-70 | each store error is thrown with a non-empty text |
| Court.MessageIdentifiesError | services/devvitService.ts:59-70 | the two thrown texts differ, so the text identifies the error |
| Court.SubmitVerdict | services/devvitService.ts:53-63 | submission fails with AlreadySubmitted exactly when the author already has a verdict on that case, and then stores nothing; otherwise exactly that verdict is appended |
| Court.SubmitPreservesValid | services/devvitService.ts:57-62 | a successful submission keeps one verdict per author and case |
| Court.VoteVerdict | services/devvitService.ts:65-77 | an unknown id fails with VerdictNotFound; otherwise only the first verdict with the id changes, its count moves by the direction, and the new count is returned |
| Court.VotePreservesValid | services/devvitService.ts:74-75 | voting keeps one verdict per author and case |
| Court.VoteRoundTrip | services/devvitService.ts:68-76 | an up-vote followed by a down-vote on the same verdict restores the store and the count |
| Text.Trim | App.tsx:89 | the trimmed text is a slice of the input whose removed ends are all white space, and it neither starts nor ends with white space |
| Text.TrimEmpty | App.tsx:82 | the trimmed text is empty exactly when the input is all white space |
| Text.TrimIdempotent | App.tsx:89 | trimming twice equals trimming once |
| Text.DecimalRoundTrip | services/geminiService.ts:55 | reading back the decimal rendering of an index gives the index |
| Text.DecimalInjective | services/geminiService.ts:55 | distinct indices render differently |
| Drafts.EvidenceIdsDistinct | services/geminiService.ts:55 | clue keys `ev-i` and `ev-j` are equal only when i = j |
| Drafts.NormaliseEvidence | services/geminiService.ts:53-57 | re-keyed clues keep count, titles and contents, are all hidden and have pairwise distinct ids |
| Drafts.GenerateDailyCase | services/geminiService.ts:51-71 | a parsed answer with an evidence array passes its texts through with as many hidden, distinctly keyed clues; any failure inside the `try`, including a missing evidence array, yields the fallback draft |
| Drafts.AuthoredEvidenceKeys | services/geminiService.ts:53-56 | clue i of an authored draft is keyed `ev-` followed by i in decimal and keeps its parsed title and content |
| Drafts.FallbackIsUsable | services/geminiService.ts:59-71 | the fallback has non-empty title, description and parties and three hidden clues keyed "1", "2", "3" |
| Drafts.FreshDraftRevealState | components/DiscoveryPhase.tsx:11 | a fresh draft counts as fully examined only when it has no clues |
| Seed.SeedStore | constants.ts:11-59 | the seed store has one verdict per author and case, and its case is today's case |
| App.Init | App.tsx:24-50 | after loading, the view is not loading and not locked; it shows the store's today's case (the first stored case keyed today) when one exists, with exactly the store's ranked list of that case's verdicts; with no case the list is empty; `userHasSubmitted` holds exactly when the store has a verdict by the viewer on today's case |
| App.SeedInit | App.tsx:35-41 | loading the seed store shows the seed case and its verdicts, 42 votes before 15, and offers the form |
| App.TimeLeft | App.tsx:59-67 | the difference lands on a UTC midnight, none lies strictly between, 0 < diff <= one day, 0 <= hours <= 24, 0 <= minutes < 60, hours and minutes are the whole parts of diff, and 24 hours shows exactly at midnight |
| App.HandleVerdictSubmit | App.tsx:80-106 | blank input or no case changes nothing; a rejected submission changes nothing; otherwise the verdict (current case, viewer, trimmed text, no stance, 0 votes) is appended in the store and prepended in the view, the flag is set and the input cleared |
| App.LengthCapNotEnforced | App.tsx:163 | a trimmed text over 140 characters that reaches the handler is stored |
| App.HandleVote | App.tsx:108-115 | the new count lands on every verdict with that id, the others are kept, and the list is a permutation of the updated list ranked stably by votes |
| App.HandleVoteUnknownId | App.tsx:108-115 | a count for an id not shown leaves a ranked view unchanged |
| App.ShowSubmitForm | App.tsx:158 | the form is offered exactly when a case is shown and the locked/submitted notice is not |
| App.FootersExclusive | App.tsx:158-185 | with a case shown exactly one of the submission form and the closed notice appears; with none, neither |
| App.FormAfterInit | App.tsx:158 | after loading, the form is offered exactly when today's case exists and the viewer has no verdict on it |
| App.FormClosedAfterSubmit | App.tsx:95-99 | a successful submission hides the form and shows the submitted notice |
| App.HandleCaseGenerated | App.tsx:74-78 | the draft is stored as a case keyed by today and stamped with now, with its texts and clues, and the view is reloaded |
| App.GeneratedCaseShown | App.tsx:74-78 | a generated case appears only when no case for today existed; otherwise the earlier case stays shown |
| VerdictList.HandleVote | components/VerdictList.tsx:13-22 | when locked nothing happens; otherwise a +1 vote for the viewer is cast, the callback gets the same id and exactly the returned count, and a failing vote is swallowed with no callback and no change |
| VerdictList.Click | components/VerdictList.tsx:17-18 | the store after a click is the handler's store; a counted click hands the same id and the returned count to the view's vote handler; a click without a callback changes nothing |
| VerdictList.ClickSyncsCount | components/VerdictList.tsx:17-18 | after a counted click the view shows the stored new count on the voted verdict, stays ranked, and is a reordering of the old view with only that verdict's count replaced |
| VerdictList.ClickWithoutEffect | components/VerdictList.tsx:14-21 | a locked view or an unknown id leaves store and view unchanged |

## Left out

- Rendering, hooks and markup: React components, the loading screen, the
  empty-list hint and the `isSubmitting` spinner flag. The submit handler sets
  that flag and clears it again, so its net effect is nil.
- Latency and promises (`delay`, `setInterval`/`clearInterval`). Every
  operation is atomic and sequential.
- Races between users (last write wins on the shared collections) are not
  modelled.
- `Date`, `toISOString`, `Date.now()` and `Math.random`. Today's key, the
  current time and the fresh verdict id are parameters. Nothing checks that a
  fresh id is unused, and neither does the source.
- The call to the generative service and `JSON.parse`. Their outcome is an
  `Option<ParsedDraft>`.
- Drafts.GenerateDailyCase: a failure before the `try`, when the authoring
  client is constructed from the API key, is not modelled. In the code such a
  throw reaches the caller and does not produce the fallback draft. The model
  covers only failures inside the `try`.
- Parsed answers whose fields or clues are not strings, and clues with extra
  fields, are not modelled. The model keeps only title and content.
- `alert` and `console.error` are not modelled.
- The source shares verdict objects with the seed arrays and mutates them in
  place. The model uses value semantics instead.
- `getCurrentUser` returns a constant. The model uses `Seed.CurrentUser`
  directly.
- The 24-hour lock: App always sets `isLocked` to false, and `App.Init`
  states that.
- App.TimeLeft: vote counts and times are unbounded integers. The host's
  floating-point numbers and its date range of ±8.64e15 ms are not modelled.
  The display string `${hours}h ${minutes}m` is not modelled either.
- Court.VoteVerdict: counts are unbounded integers, so floating-point rounding
  beyond 2^53 is not modelled.
- Seed.SeedStore: the seed case's description and clue contents are
  shortened, because they are display text only.
- The three-phase Discovery/Deliberation/Result variant is not part of this
  model, because the modelled App does not use it. Only its
  "all clues revealed" predicate is kept, as `Types.AllRevealed`.
- The type declarations differ from the code's use. The `stance` field is
  optional, because the client never sets it. The view state has the fields
  App uses.
