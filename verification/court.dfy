/** The in-memory court store (`DevvitMockService`): a collection of cases and
    a collection of verdicts, with lookup of today's case, case creation,
    ranked listing, submission and voting. Each operation is atomic and
    returns the new store instead of writing it back; the simulated latency
    is not modelled. */
module Court {
  import opened Wrappers
  import opened Types
  import opened Ranking

  datatype Store = Store(cases: seq<Case>, verdicts: seq<Verdict>)

  /** The errors the store throws. */
  datatype CourtError = AlreadySubmitted | VerdictNotFound

  /** The text each error is thrown with. */
  function Message(e: CourtError): (m: string)
    ensures |m| > 0
  {
    match e
    case AlreadySubmitted => "You have already submitted a verdict for this case."
    case VerdictNotFound => "Verdict not found"
  }

  /** The thrown texts tell the two errors apart. */
  lemma MessageIdentifiesError(e1: CourtError, e2: CourtError)
    ensures Message(e1) == Message(e2) <==> e1 == e2
  {
    if e1 != e2 {
      assert |Message(AlreadySubmitted)| != |Message(VerdictNotFound)|;
    }
  }

  /** A vote direction: one step up or one step down. */
  type Direction = d: int | d == 1 || d == -1 witness 1

  /** The successful result of a vote: the new store and the new count. */
  datatype Ballot = Ballot(store: Store, votes: int)

  /** No author has two verdicts on the same case. */
  predicate OneVerdictPerAuthor(vs: seq<Verdict>)
  {
    forall i, j :: 0 <= i < j < |vs| ==>
      vs[i].caseId != vs[j].caseId || vs[i].author != vs[j].author
  }

  predicate Valid(st: Store)
  {
    OneVerdictPerAuthor(st.verdicts)
  }

  predicate HasVerdictBy(vs: seq<Verdict>, caseId: string, author: string)
  {
    exists i :: 0 <= i < |vs| && vs[i].caseId == caseId && vs[i].author == author
  }

  /** Index of the first occurrence of `x` in `xs`, as the host's `find`
      locates it. */
  function FirstIndexOf<T(==)>(xs: seq<T>, x: T): (r: Option<nat>)
    ensures r.Some? ==> r.value < |xs| && xs[r.value] == x
    ensures r.Some? ==> forall j :: 0 <= j < r.value ==> xs[j] != x
    ensures r.None? <==> x !in xs
  {
    if |xs| == 0 then None
    else if xs[0] == x then Some(0)
    else match FirstIndexOf(xs[1..], x)
      case None =>
        assert xs == [xs[0]] + xs[1..];
        None
      case Some(i) => Some(i + 1)
  }

  /** The key of every element of `xs`, in order. */
  function Ids<T>(xs: seq<T>, key: T -> string): (ids: seq<string>)
    ensures |ids| == |xs| && forall i :: 0 <= i < |xs| ==> ids[i] == key(xs[i])
  {
    seq(|xs|, i requires 0 <= i < |xs| => key(xs[i]))
  }

  function CaseId(c: Case): string { c.id }

  function VerdictId(v: Verdict): string { v.id }

  /** Index of the first verdict `author` wrote on case `caseId`. */
  function FirstVerdictBy(vs: seq<Verdict>, caseId: string, author: string): (r: Option<nat>)
    ensures r.Some? ==> r.value < |vs| && vs[r.value].caseId == caseId && vs[r.value].author == author
    ensures r.None? <==> !HasVerdictBy(vs, caseId, author)
  {
    if |vs| == 0 then None
    else if vs[0].caseId == caseId && vs[0].author == author then Some(0)
    else match FirstVerdictBy(vs[1..], caseId, author)
      case None =>
        assert forall i :: 1 <= i < |vs| ==> vs[i] == vs[1..][i - 1];
        None
      case Some(i) => Some(i + 1)
  }

  /** The verdicts on case `caseId`, in storage order. */
  function ForCase(vs: seq<Verdict>, caseId: string): (r: seq<Verdict>)
    ensures forall v :: v in r <==> v in vs && v.caseId == caseId
    ensures |r| <= |vs|
  {
    if |vs| == 0 then []
    else (if vs[0].caseId == caseId then [vs[0]] else []) + ForCase(vs[1..], caseId)
  }

  /** `cases[i]` is the first case with identifier `id`. */
  predicate FirstMatchAt(cases: seq<Case>, i: int, id: string)
  {
    0 <= i < |cases| && cases[i].id == id && forall j :: 0 <= j < i ==> cases[j].id != id
  }

  /** Today's case: the first stored case whose id is today's date key, or
      none when no stored case carries that key. */
  function GetTodayCase(st: Store, today: string): (r: Option<Case>)
    ensures r.Some? <==> exists i :: 0 <= i < |st.cases| && st.cases[i].id == today
    ensures r.Some? ==> r.value.id == today && r.value in st.cases
    ensures r.Some? ==> exists i :: FirstMatchAt(st.cases, i, today) && st.cases[i] == r.value
  {
    match FirstIndexOf(Ids(st.cases, CaseId), today)
    case None =>
      assert forall i :: 0 <= i < |st.cases| ==> Ids(st.cases, CaseId)[i] in Ids(st.cases, CaseId);
      None
    case Some(i) =>
      assert FirstMatchAt(st.cases, i, today);
      Some(st.cases[i])
  }

  /** Stores a new case after the existing ones. Nothing checks that its id
      is unused. */
  function CreateCase(st: Store, c: Case): (r: Store)
    ensures |r.cases| == |st.cases| + 1
    ensures r.cases[..|st.cases|] == st.cases && r.cases[|st.cases|] == c
    ensures r.verdicts == st.verdicts
  {
    st.(cases := st.cases + [c])
  }

  /** The verdicts on case `caseId`, ranked by votes, highest first, ties in
      storage order. */
  function GetVerdictsForCase(st: Store, caseId: string): (r: seq<Verdict>)
    ensures SortedByVotes(r)
    ensures multiset(r) == multiset(ForCase(st.verdicts, caseId))
    ensures SameTies(r, ForCase(st.verdicts, caseId))
    ensures forall v :: v in r <==> v in st.verdicts && v.caseId == caseId
  {
    var found := ForCase(st.verdicts, caseId);
    SortByVotesSameTies(found);
    var r := SortByVotes(found);
    assert forall v :: v in r <==> v in multiset(found);
    r
  }

  /** Stores `v` after the existing verdicts unless its author already has a
      verdict on the same case, in which case it throws and stores nothing. */
  function SubmitVerdict(st: Store, v: Verdict): (r: Result<Store, CourtError>)
    ensures r.Failure? <==> HasVerdictBy(st.verdicts, v.caseId, v.author)
    ensures r.Failure? ==> r.error == AlreadySubmitted
    ensures r.Success? ==> r.value.cases == st.cases
    ensures r.Success? ==> r.value.verdicts == st.verdicts + [v]
  {
    match FirstVerdictBy(st.verdicts, v.caseId, v.author)
    case Some(_) => Failure(AlreadySubmitted)
    case None => Success(st.(verdicts := st.verdicts + [v]))
  }

  /** `after` is `before` with `delta` added to the count of verdict `i` and
      every other verdict left as it was. */
  predicate Bumped(before: seq<Verdict>, after: seq<Verdict>, i: int, delta: int)
  {
    && 0 <= i < |before| == |after|
    && after[i] == before[i].(votes := before[i].votes + delta)
    && forall j :: 0 <= j < |before| && j != i ==> after[j] == before[j]
  }

  /** Adds `direction` to the first verdict with identifier `verdictId` and
      returns the new count, or throws when no verdict has that id. The voter
      is not recorded, so a voter may vote any number of times. */
  function VoteVerdict(st: Store, verdictId: string, userId: string, direction: Direction)
    : (r: Result<Ballot, CourtError>)
    ensures r.Failure? <==> forall j :: 0 <= j < |st.verdicts| ==> st.verdicts[j].id != verdictId
    ensures r.Failure? ==> r.error == VerdictNotFound
    ensures r.Success? ==> r.value.store.cases == st.cases
    ensures r.Success? ==> FirstIndexOf(Ids(st.verdicts, VerdictId), verdictId).Some?
    ensures r.Success? ==>
      var i := FirstIndexOf(Ids(st.verdicts, VerdictId), verdictId).value;
      && Bumped(st.verdicts, r.value.store.verdicts, i, direction)
      && r.value.votes == st.verdicts[i].votes + direction
  {
    match FirstIndexOf(Ids(st.verdicts, VerdictId), verdictId)
    case None =>
      assert forall j :: 0 <= j < |st.verdicts| ==> Ids(st.verdicts, VerdictId)[j] in Ids(st.verdicts, VerdictId);
      Failure(VerdictNotFound)
    case Some(i) =>
      var v := st.verdicts[i].(votes := st.verdicts[i].votes + direction);
      Success(Ballot(st.(verdicts := st.verdicts[i := v]), v.votes))
  }

  // ---------------------------------------------------------------------
  // Properties relating several operations.

  lemma {:induction false} FirstIndexAppend<T>(xs: seq<T>, y: T, x: T)
    ensures FirstIndexOf(xs + [y], x) ==
      match FirstIndexOf(xs, x)
      case Some(i) => Some(i)
      case None => if y == x then Some(|xs|) else None
    decreases |xs|
  {
    if |xs| == 0 {
      assert xs + [y] == [y];
    } else {
      assert (xs + [y])[1..] == xs[1..] + [y];
      FirstIndexAppend(xs[1..], y, x);
    }
  }

  /** Creating a case never changes which case is today's when one already
      exists: the lookup returns the first match, and creation appends. When
      none exists, the new case becomes today's case exactly when its id is
      today's key. */
  lemma CreateCaseTodayCase(st: Store, c: Case, today: string)
    ensures GetTodayCase(st, today).Some? ==>
      GetTodayCase(CreateCase(st, c), today) == GetTodayCase(st, today)
    ensures GetTodayCase(st, today).None? ==>
      GetTodayCase(CreateCase(st, c), today) == (if c.id == today then Some(c) else None)
  {
    assert Ids(st.cases + [c], CaseId) == Ids(st.cases, CaseId) + [c.id];
    FirstIndexAppend(Ids(st.cases, CaseId), c.id, today);
    match FirstIndexOf(Ids(st.cases, CaseId), today)
    case Some(i) =>
      assert (st.cases + [c])[i] == st.cases[i];
    case None =>
  }

  lemma CreateCasePreservesValid(st: Store, c: Case)
    requires Valid(st)
    ensures Valid(CreateCase(st, c))
  {
  }

  /** A successful submission keeps one verdict per author and case; a
      rejected one changes nothing. */
  lemma SubmitPreservesValid(st: Store, v: Verdict)
    requires Valid(st)
    ensures SubmitVerdict(st, v).Success? ==> Valid(SubmitVerdict(st, v).value)
  {
    if SubmitVerdict(st, v).Success? {
      var vs := st.verdicts + [v];
      forall i, j | 0 <= i < j < |vs|
        ensures vs[i].caseId != vs[j].caseId || vs[i].author != vs[j].author
      {
        if j == |st.verdicts| {
          assert vs[i] == st.verdicts[i];
        } else {
          assert vs[i] == st.verdicts[i] && vs[j] == st.verdicts[j];
        }
      }
    }
  }

  /** Voting changes only a count, so it keeps one verdict per author and
      case. */
  lemma VotePreservesValid(st: Store, verdictId: string, userId: string, direction: Direction)
    requires Valid(st)
    ensures VoteVerdict(st, verdictId, userId, direction).Success? ==>
      Valid(VoteVerdict(st, verdictId, userId, direction).value.store)
  {
    var r := VoteVerdict(st, verdictId, userId, direction);
    if r.Success? {
      var vs := r.value.store.verdicts;
      assert forall j :: 0 <= j < |vs| ==>
        vs[j].caseId == st.verdicts[j].caseId && vs[j].author == st.verdicts[j].author;
    }
  }

  /** An up-vote followed by a down-vote on the same verdict, by any voters,
      restores the store and the count. */
  lemma VoteRoundTrip(st: Store, verdictId: string, up: string, down: string)
    requires VoteVerdict(st, verdictId, up, 1).Success?
    ensures var b := VoteVerdict(st, verdictId, up, 1).value;
      VoteVerdict(b.store, verdictId, down, -1) == Success(Ballot(st, b.votes - 1))
  {
    var b := VoteVerdict(st, verdictId, up, 1).value;
    assert Ids(b.store.verdicts, VerdictId) == Ids(st.verdicts, VerdictId);
    var back := VoteVerdict(b.store, verdictId, down, -1).value;
    assert back.store.verdicts == st.verdicts;
  }
}
