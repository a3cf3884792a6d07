/** The up-vote button of the verdict list: unless voting is locked it casts
    a +1 vote for the viewer, forwards the count the store returns to the
    parent's vote handler, and swallows a failing vote. */
module VerdictList {
  import opened Wrappers
  import opened Types
  import opened Ranking
  import opened Court
  import opened Seed
  import App

  /** The parent callback invocation `onVote(verdictId, newCount)`. */
  datatype OnVote = OnVote(verdictId: string, newCount: int)

  /** The store after the click and the callback made, if any. */
  datatype VoteCall = VoteCall(store: Store, onVote: Option<OnVote>)

  function HandleVote(isLocked: bool, st: Store, verdictId: string): (r: VoteCall)
    ensures isLocked ==> r == VoteCall(st, None)
    ensures !isLocked ==>
      (r.onVote.Some? <==> exists j :: 0 <= j < |st.verdicts| && st.verdicts[j].id == verdictId)
    ensures r.onVote.None? ==> r.store == st
    ensures r.onVote.Some? ==>
      VoteVerdict(st, verdictId, CurrentUser.id, 1) == Success(Ballot(r.store, r.onVote.value.newCount))
    ensures r.onVote.Some? ==> r.onVote.value.verdictId == verdictId
    ensures r.onVote.Some? ==> FirstIndexOf(Ids(st.verdicts, VerdictId), verdictId).Some?
    ensures r.onVote.Some? ==>
      var i := FirstIndexOf(Ids(st.verdicts, VerdictId), verdictId).value;
      && Bumped(st.verdicts, r.store.verdicts, i, 1)
      && r.onVote.value.newCount == st.verdicts[i].votes + 1
  {
    if isLocked then VoteCall(st, None)
    else
      match VoteVerdict(st, verdictId, CurrentUser.id, 1)
      case Failure(_) => VoteCall(st, None)
      case Success(b) => VoteCall(b.store, Some(OnVote(verdictId, b.votes)))
  }

  /** The store and the view together. */
  datatype Screen = Screen(store: Store, game: App.GameState)

  /** A click on the up-vote button of `verdictId`, with the list's lock
      taken from the view and the callback wired to the view's vote handler. */
  function Click(sc: Screen, verdictId: string): (r: Screen)
    ensures r.store == HandleVote(sc.game.isLocked, sc.store, verdictId).store
    ensures HandleVote(sc.game.isLocked, sc.store, verdictId).onVote.None? ==> r == sc
    ensures var call := HandleVote(sc.game.isLocked, sc.store, verdictId);
      call.onVote.Some? ==> r.game == App.HandleVote(sc.game, verdictId, call.onVote.value.newCount)
  {
    var call := HandleVote(sc.game.isLocked, sc.store, verdictId);
    match call.onVote
    case None => Screen(call.store, sc.game)
    case Some(cb) => Screen(call.store, App.HandleVote(sc.game, cb.verdictId, cb.newCount))
  }

  /** After a counted click the view agrees with the store on the voted
      verdict: every shown verdict with that id carries the count now stored
      for it, the view stays ranked, and nothing but counts changes. */
  lemma ClickSyncsCount(sc: Screen, verdictId: string)
    requires !sc.game.isLocked
    requires exists j :: 0 <= j < |sc.store.verdicts| && sc.store.verdicts[j].id == verdictId
    ensures var r := Click(sc, verdictId);
      var i := FirstIndexOf(Ids(sc.store.verdicts, VerdictId), verdictId).value;
      && r.store.verdicts[i].votes == sc.store.verdicts[i].votes + 1
      && (forall v :: v in r.game.verdicts && v.id == verdictId ==> v.votes == r.store.verdicts[i].votes)
      && SortedByVotes(r.game.verdicts)
      && |r.game.verdicts| == |sc.game.verdicts|
      && r.game == sc.game.(verdicts := r.game.verdicts)
      && multiset(r.game.verdicts) == multiset(App.SetVotes(sc.game.verdicts, verdictId, r.store.verdicts[i].votes))
  {
    var call := HandleVote(false, sc.store, verdictId);
    assert call.onVote.Some?;
    var i := FirstIndexOf(Ids(sc.store.verdicts, VerdictId), verdictId).value;
    var r := Click(sc, verdictId);
    assert r.game == App.HandleVote(sc.game, verdictId, call.onVote.value.newCount);
    assert |multiset(r.game.verdicts)| == |multiset(App.SetVotes(sc.game.verdicts, verdictId, call.onVote.value.newCount))|;
  }

  /** A locked view or an unknown verdict leaves both the store and the
      view as they were. */
  lemma ClickWithoutEffect(sc: Screen, verdictId: string)
    requires sc.game.isLocked || forall j :: 0 <= j < |sc.store.verdicts| ==> sc.store.verdicts[j].id != verdictId
    ensures Click(sc, verdictId) == sc
  {
  }
}
