/** The client's view state and the updates App applies to it: loading
    today's case, the countdown to the next UTC midnight, submitting a
    verdict, re-ranking after a vote, and which footer is offered. "Today"
    (the UTC `YYYY-MM-DD` key), "now" (epoch milliseconds) and the fresh
    verdict id are parameters. */
module App {
  import opened Wrappers
  import opened Types
  import opened Ranking
  import opened Court
  import opened Text
  import opened Drafts
  import opened Seed

  /** What the client shows. */
  datatype GameState = GameState(
    currentCase: Option<Case>,
    verdicts: seq<Verdict>,
    isLoading: bool,
    userHasSubmitted: bool,
    isLocked: bool)

  /** The limit the input box puts on typed verdicts. */
  const MaxVerdictLength := 140

  predicate SomeByAuthor(vs: seq<Verdict>, author: string)
  {
    exists i :: 0 <= i < |vs| && vs[i].author == author
  }

  // ---------------------------------------------------------------------
  // Loading

  /** The state after loading: today's case, its ranked verdicts, whether
      the viewer already ruled on it; never locked. */
  function Init(st: Store, today: string): (g: GameState)
    ensures !g.isLoading && !g.isLocked
    ensures g.currentCase == GetTodayCase(st, today)
    ensures g.currentCase.Some? ==> g.verdicts == GetVerdictsForCase(st, today)
    ensures g.currentCase.Some? <==> exists i :: 0 <= i < |st.cases| && st.cases[i].id == today
    ensures g.currentCase.Some? ==> g.currentCase.value.id == today && g.currentCase.value in st.cases
    ensures g.currentCase.None? ==> g.verdicts == [] && !g.userHasSubmitted
    ensures SortedByVotes(g.verdicts)
    ensures g.currentCase.Some? ==>
      forall v :: v in g.verdicts <==> v in st.verdicts && v.caseId == today
    ensures g.userHasSubmitted <==>
      g.currentCase.Some? && HasVerdictBy(st.verdicts, today, CurrentUser.username)
  {
    match GetTodayCase(st, today)
    case None => GameState(None, [], false, false, false)
    case Some(c) =>
      var verdicts := GetVerdictsForCase(st, c.id);
      var submitted := SomeByAuthor(verdicts, CurrentUser.username);
      assert submitted ==> HasVerdictBy(st.verdicts, today, CurrentUser.username) by {
        if submitted {
          var i :| 0 <= i < |verdicts| && verdicts[i].author == CurrentUser.username;
          assert verdicts[i] in st.verdicts;
        }
      }
      assert HasVerdictBy(st.verdicts, today, CurrentUser.username) ==> submitted by {
        if HasVerdictBy(st.verdicts, today, CurrentUser.username) {
          var i :| 0 <= i < |st.verdicts| && st.verdicts[i].caseId == today
            && st.verdicts[i].author == CurrentUser.username;
          assert st.verdicts[i] in verdicts;
        }
      }
      GameState(Some(c), verdicts, false, submitted, false)
  }

  // ---------------------------------------------------------------------
  // Countdown

  const MsPerMinute := 60_000
  const MsPerHour := 3_600_000
  const MsPerDay := 86_400_000

  /** Milliseconds left until the next UTC midnight, split into whole hours
      and the whole minutes beyond them. */
  datatype Countdown = Countdown(diff: int, hours: int, minutes: int)

  /** `t` is a UTC midnight: a whole number of days after the epoch. */
  predicate IsUtcMidnight(t: int)
  {
    t % MsPerDay == 0
  }

  /** The first UTC midnight strictly after `now`. */
  function NextUtcMidnight(now: int): int
  {
    (now / MsPerDay + 1) * MsPerDay
  }

  function TimeLeft(now: int): (r: Countdown)
    ensures 0 < r.diff <= MsPerDay
    ensures IsUtcMidnight(now + r.diff)
    ensures forall t :: now < t < now + r.diff ==> !IsUtcMidnight(t)
    ensures 0 <= r.hours <= 24 && 0 <= r.minutes < 60
    ensures r.hours * MsPerHour + r.minutes * MsPerMinute <= r.diff
    ensures r.diff < r.hours * MsPerHour + (r.minutes + 1) * MsPerMinute
    ensures r.hours == 24 <==> now % MsPerDay == 0
  {
    var diff := NextUtcMidnight(now) - now;
    var hours := diff / MsPerHour;
    var minutes := (diff % MsPerHour) / MsPerMinute;
    CountdownFacts(now, diff, hours, minutes);
    Countdown(diff, hours, minutes)
  }

  lemma CountdownFacts(now: int, diff: int, hours: int, minutes: int)
    requires diff == NextUtcMidnight(now) - now
    requires hours == diff / MsPerHour && minutes == (diff % MsPerHour) / MsPerMinute
    ensures 0 < diff <= MsPerDay
    ensures IsUtcMidnight(now + diff)
    ensures forall t :: now < t < now + diff ==> !IsUtcMidnight(t)
    ensures 0 <= hours <= 24 && 0 <= minutes < 60
    ensures hours * MsPerHour + minutes * MsPerMinute <= diff
    ensures diff < hours * MsPerHour + (minutes + 1) * MsPerMinute
    ensures hours == 24 <==> now % MsPerDay == 0
  {
    var q := now / MsPerDay;
    var rem := now % MsPerDay;
    assert now == q * MsPerDay + rem;
    assert diff == MsPerDay - rem;
    assert now + diff == (q + 1) * MsPerDay;
    forall t | now < t < now + diff ensures !IsUtcMidnight(t) {
      assert t == q * MsPerDay + (rem + (t - now));
      assert 0 < rem + (t - now) < MsPerDay;
    }
    var m := diff % MsPerHour;
    assert diff == hours * MsPerHour + m;
    assert m == minutes * MsPerMinute + m % MsPerMinute;
  }

  // ---------------------------------------------------------------------
  // Submitting a verdict

  /** App state touched by a submission: the view, the input box and the
      store. */
  datatype SubmitStep = SubmitStep(game: GameState, inputText: string, store: Store)

  /** The verdict the client builds from the input: on the current case, by
      the viewer, the trimmed text, no stance, no votes. */
  predicate IsSubmittedVerdict(v: Verdict, c: Case, inputText: string, freshId: string)
  {
    && v.id == freshId
    && v.caseId == c.id
    && v.author == CurrentUser.username
    && v.text == Trim(inputText)
    && v.stance.None?
    && v.votes == 0
  }

  function HandleVerdictSubmit(g: GameState, inputText: string, st: Store, freshId: string)
    : (r: SubmitStep)
    ensures (Trim(inputText) == [] || g.currentCase.None?) ==> r == SubmitStep(g, inputText, st)
    ensures (g.currentCase.Some? && HasVerdictBy(st.verdicts, g.currentCase.value.id, CurrentUser.username))
      ==> r == SubmitStep(g, inputText, st)
    ensures (&& Trim(inputText) != [] && g.currentCase.Some?
             && !HasVerdictBy(st.verdicts, g.currentCase.value.id, CurrentUser.username)) ==>
      && |r.game.verdicts| == |g.verdicts| + 1
      && IsSubmittedVerdict(r.game.verdicts[0], g.currentCase.value, inputText, freshId)
      && r.game.verdicts[1..] == g.verdicts
      && r.game == g.(verdicts := r.game.verdicts, userHasSubmitted := true)
      && r.store.verdicts == st.verdicts + [r.game.verdicts[0]]
      && r.store.cases == st.cases
      && r.inputText == ""
  {
    if Trim(inputText) == [] || g.currentCase.None? then SubmitStep(g, inputText, st)
    else
      var c := g.currentCase.value;
      var v := Verdict(freshId, c.id, CurrentUser.username, Trim(inputText), None, 0);
      match SubmitVerdict(st, v)
      case Failure(_) => SubmitStep(g, inputText, st)
      case Success(st') =>
        var verdicts := [v] + g.verdicts;
        assert verdicts[1..] == g.verdicts;
        SubmitStep(g.(verdicts := verdicts, userHasSubmitted := true), "", st')
  }

  /** The text limit lives only in the input box: a longer text that reaches
      the submit handler is stored as it is. */
  lemma LengthCapNotEnforced(g: GameState, inputText: string, st: Store, freshId: string)
    requires g.currentCase.Some? && |Trim(inputText)| > MaxVerdictLength
    requires !HasVerdictBy(st.verdicts, g.currentCase.value.id, CurrentUser.username)
    ensures var r := HandleVerdictSubmit(g, inputText, st, freshId);
      |r.store.verdicts| == |st.verdicts| + 1
      && |r.store.verdicts[|st.verdicts|].text| > MaxVerdictLength
  {
  }

  // ---------------------------------------------------------------------
  // Re-ranking after a vote

  /** Every verdict with identifier `verdictId` gets the count `n`. */
  function SetVotes(vs: seq<Verdict>, verdictId: string, n: int): (r: seq<Verdict>)
    ensures |r| == |vs|
    ensures forall i :: 0 <= i < |vs| ==>
      r[i] == (if vs[i].id == verdictId then vs[i].(votes := n) else vs[i])
  {
    seq(|vs|, i requires 0 <= i < |vs| =>
      if vs[i].id == verdictId then vs[i].(votes := n) else vs[i])
  }

  lemma SetVotesMembers(vs: seq<Verdict>, verdictId: string, n: int)
    ensures var marked := SetVotes(vs, verdictId, n);
      && (forall v :: v in marked && v.id == verdictId ==> v.votes == n)
      && (forall v :: v in marked && v.id != verdictId ==> v in vs)
      && (forall v :: v in vs && v.id != verdictId ==> v in marked)
      && (forall v :: v in vs && v.id == verdictId ==> v.(votes := n) in marked)
  {
    var marked := SetVotes(vs, verdictId, n);
    forall v | v in vs
      ensures v.id != verdictId ==> v in marked
      ensures v.id == verdictId ==> v.(votes := n) in marked
    {
      var i :| 0 <= i < |vs| && vs[i] == v;
      assert marked[i] == if v.id == verdictId then v.(votes := n) else v;
    }
  }

  /** Puts the reported count on the voted verdict and ranks the list again. */
  function HandleVote(g: GameState, verdictId: string, newVotes: int): (r: GameState)
    ensures r == g.(verdicts := r.verdicts)
    ensures SortedByVotes(r.verdicts)
    ensures multiset(r.verdicts) == multiset(SetVotes(g.verdicts, verdictId, newVotes))
    ensures SameTies(r.verdicts, SetVotes(g.verdicts, verdictId, newVotes))
    ensures forall v :: v in r.verdicts && v.id == verdictId ==> v.votes == newVotes
    ensures forall v :: v in r.verdicts && v.id != verdictId ==> v in g.verdicts
    ensures forall v :: v in g.verdicts && v.id != verdictId ==> v in r.verdicts
    ensures forall v :: v in g.verdicts && v.id == verdictId ==> v.(votes := newVotes) in r.verdicts
  {
    var marked := SetVotes(g.verdicts, verdictId, newVotes);
    var ranked := SortByVotes(marked);
    SortByVotesSameTies(marked);
    SetVotesMembers(g.verdicts, verdictId, newVotes);
    assert forall v :: v in ranked <==> v in marked by {
      assert forall v :: v in ranked <==> v in multiset(marked);
    }
    g.(verdicts := ranked)
  }

  /** A report for a verdict the view does not show leaves a ranked view as
      it is. */
  lemma HandleVoteUnknownId(g: GameState, verdictId: string, newVotes: int)
    requires SortedByVotes(g.verdicts)
    requires forall i :: 0 <= i < |g.verdicts| ==> g.verdicts[i].id != verdictId
    ensures HandleVote(g, verdictId, newVotes) == g
  {
    assert SetVotes(g.verdicts, verdictId, newVotes) == g.verdicts;
    SortByVotesIdempotent(g.verdicts);
  }

  // ---------------------------------------------------------------------
  // Footers

  /** The submission form is offered only for a case that is open and not
      yet ruled on by the viewer; with a case shown it appears exactly when
      the closed notice does not. */
  predicate ShowSubmitForm(g: GameState)
    ensures ShowSubmitForm(g) <==> g.currentCase.Some? && !ShowClosedFooter(g)
  {
    g.currentCase.Some? && !g.isLocked && !g.userHasSubmitted
  }

  /** The "locked" or "submitted" notice. */
  predicate ShowClosedFooter(g: GameState)
  {
    g.currentCase.Some? && (g.isLocked || g.userHasSubmitted)
  }

  /** With a case on screen exactly one footer shows; without one, neither. */
  lemma FootersExclusive(g: GameState)
    ensures g.currentCase.Some? ==> ShowSubmitForm(g) != ShowClosedFooter(g)
    ensures g.currentCase.None? ==> !ShowSubmitForm(g) && !ShowClosedFooter(g)
  {
  }

  /** After loading, the form is offered exactly when today's case exists and
      the viewer has no verdict on it in the store. */
  lemma FormAfterInit(st: Store, today: string)
    ensures ShowSubmitForm(Init(st, today)) <==>
      GetTodayCase(st, today).Some? && !HasVerdictBy(st.verdicts, today, CurrentUser.username)
  {
  }

  /** A successful submission closes the form. */
  lemma FormClosedAfterSubmit(g: GameState, inputText: string, st: Store, freshId: string)
    requires g.currentCase.Some? && Trim(inputText) != []
    requires !HasVerdictBy(st.verdicts, g.currentCase.value.id, CurrentUser.username)
    ensures !ShowSubmitForm(HandleVerdictSubmit(g, inputText, st, freshId).game)
    ensures ShowClosedFooter(HandleVerdictSubmit(g, inputText, st, freshId).game)
  {
  }

  // ---------------------------------------------------------------------
  // Creating a case from a draft

  /** The draft stamped with today's key and the creation time, stored, and
      the view reloaded. */
  function HandleCaseGenerated(st: Store, draft: CaseDraft, today: string, now: int)
    : (r: (Store, GameState))
    ensures r.1 == Init(r.0, today)
    ensures |r.0.cases| == |st.cases| + 1 && r.0.verdicts == st.verdicts
    ensures var c := r.0.cases[|st.cases|];
      && c.id == today && c.createdAt == now
      && c.title == draft.title && c.description == draft.description
      && c.plaintiff == draft.plaintiff && c.defendant == draft.defendant
      && c.evidence == draft.evidence
  {
    var c := Case(today, draft.title, draft.description, draft.plaintiff, draft.defendant,
                  draft.evidence, now);
    var st' := CreateCase(st, c);
    (st', Init(st', today))
  }

  /** A generated case is shown only when no case for today existed before;
      otherwise the earlier case stays on screen and the new one is never
      reached. */
  lemma GeneratedCaseShown(st: Store, draft: CaseDraft, today: string, now: int)
    ensures var r := HandleCaseGenerated(st, draft, today, now);
      GetTodayCase(st, today).None? ==> r.1.currentCase == Some(r.0.cases[|st.cases|])
    ensures var r := HandleCaseGenerated(st, draft, today, now);
      GetTodayCase(st, today).Some? ==> r.1.currentCase == GetTodayCase(st, today)
  {
    var r := HandleCaseGenerated(st, draft, today, now);
    CreateCaseTodayCase(st, r.0.cases[|st.cases|], today);
    assert r.0 == CreateCase(st, r.0.cases[|st.cases|]);
  }

  lemma {:induction false} ForCaseOfOneCase(vs: seq<Verdict>, caseId: string)
    requires forall i :: 0 <= i < |vs| ==> vs[i].caseId == caseId
    ensures ForCase(vs, caseId) == vs
    decreases |vs|
  {
    if |vs| > 0 {
      ForCaseOfOneCase(vs[1..], caseId);
      assert vs == [vs[0]] + vs[1..];
    }
  }

  /** Loading the seeded store shows the seed case with its two verdicts,
      the 42-vote one first, and offers the form. */
  lemma SeedInit(today: string, now: int)
    ensures var g := Init(SeedStore(today, now), today);
      && g.currentCase == Some(SeedCase(today, now))
      && g.verdicts == SeedVerdicts(today)
      && ShowSubmitForm(g)
  {
    var st := SeedStore(today, now);
    var vs := SeedVerdicts(today);
    assert GetVerdictsForCase(st, today) == vs by {
      ForCaseOfOneCase(vs, today);
      assert SortedByVotes(vs);
      SortByVotesIdempotent(vs);
    }
    assert !HasVerdictBy(vs, today, CurrentUser.username);
  }
}
