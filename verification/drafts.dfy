/** Turning the authoring service's answer into a case draft
    (`generateDailyCase`). The remote call and the JSON parsing are outside
    the model: their outcome arrives as an optional parsed draft, absent when
    the call or the parse threw. Constructing the authoring client happens
    before the guarded block and is not modelled. */
module Drafts {
  import opened Wrappers
  import opened Types
  import opened Text

  /** One clue as the authoring service returns it. */
  datatype ParsedEvidence = ParsedEvidence(title: string, content: string)

  /** The parsed answer. `evidence` is absent when the answer has no array
      there, which makes the re-keying throw. */
  datatype ParsedDraft = ParsedDraft(
    title: string,
    description: string,
    plaintiff: string,
    defendant: string,
    evidence: Option<seq<ParsedEvidence>>)

  /** A case without its id and creation time. */
  datatype CaseDraft = CaseDraft(
    title: string,
    description: string,
    plaintiff: string,
    defendant: string,
    evidence: seq<Evidence>)

  /** The key given to the clue at position `i`. */
  function EvidenceId(i: nat): string
  {
    "ev-" + ToDecimal(i)
  }

  lemma EvidenceIdsDistinct(i: nat, j: nat)
    ensures EvidenceId(i) == EvidenceId(j) ==> i == j
  {
    if EvidenceId(i) == EvidenceId(j) {
      assert EvidenceId(i)[3..] == ToDecimal(i);
      assert EvidenceId(j)[3..] == ToDecimal(j);
      DecimalInjective(i, j);
    }
  }

  /** Re-keys parsed clues by position and hides them all. */
  function NormaliseEvidence(items: seq<ParsedEvidence>): (r: seq<Evidence>)
    ensures |r| == |items|
    ensures forall i :: 0 <= i < |r| ==>
      r[i].title == items[i].title && r[i].content == items[i].content
    ensures forall i :: 0 <= i < |r| ==> !r[i].isRevealed
    ensures forall i, j :: 0 <= i < j < |r| ==> r[i].id != r[j].id
  {
    var r := seq(|items|, i requires 0 <= i < |items| =>
      Evidence(EvidenceId(i), items[i].title, items[i].content, false));
    assert forall i, j :: 0 <= i < j < |r| ==> r[i].id != r[j].id by {
      forall i, j | 0 <= i < j < |r| ensures r[i].id != r[j].id {
        EvidenceIdsDistinct(i, j);
      }
    }
    r
  }

  /** The draft used whenever authoring fails. */
  const FallbackDraft := CaseDraft(
    "The Case of the Missing Data",
    "The AI is on strike. The judge is confused.",
    "The Users",
    "The Server",
    [ Evidence("1", "Exhibit A", "A blank sheet of paper.", false),
      Evidence("2", "Testimony", "I saw nothing.", false),
      Evidence("3", "History", "The logs are empty.", false) ])

  /** The draft produced from the authoring outcome: the parsed answer with
      its clues re-keyed, or the fixed fallback when anything failed. */
  function GenerateDailyCase(answer: Option<ParsedDraft>): (r: CaseDraft)
    ensures (answer.Some? && answer.value.evidence.Some?) ==>
      && r.title == answer.value.title
      && r.description == answer.value.description
      && r.plaintiff == answer.value.plaintiff
      && r.defendant == answer.value.defendant
      && |r.evidence| == |answer.value.evidence.value|
    ensures (answer.None? || answer.value.evidence.None?) ==> r == FallbackDraft
    ensures forall i :: 0 <= i < |r.evidence| ==> !r.evidence[i].isRevealed
    ensures forall i, j :: 0 <= i < j < |r.evidence| ==> r.evidence[i].id != r.evidence[j].id
  {
    match answer
    case None => FallbackDraft
    case Some(d) =>
      match d.evidence
      case None => FallbackDraft
      case Some(items) => CaseDraft(d.title, d.description, d.plaintiff, d.defendant,
                                    NormaliseEvidence(items))
  }

  /** Clue `i` of a successfully authored draft keeps the parsed title and
      content and is keyed `ev-i`. */
  lemma AuthoredEvidenceKeys(d: ParsedDraft, i: nat)
    requires d.evidence.Some? && i < |d.evidence.value|
    ensures var e := GenerateDailyCase(Some(d)).evidence[i];
      && e.id == "ev-" + ToDecimal(i)
      && e.title == d.evidence.value[i].title
      && e.content == d.evidence.value[i].content
  {
  }

  /** The fallback is a usable case: every party and text is non-empty and it
      carries three hidden clues keyed "1", "2" and "3". */
  lemma FallbackIsUsable(answer: Option<ParsedDraft>)
    requires answer.None? || answer.value.evidence.None?
    ensures var r := GenerateDailyCase(answer);
      && |r.title| > 0 && |r.description| > 0 && |r.plaintiff| > 0 && |r.defendant| > 0
      && |r.evidence| == 3
      && r.evidence[0].id == "1" && r.evidence[1].id == "2" && r.evidence[2].id == "3"
      && !AllRevealed(r.evidence)
  {
  }

  /** A fresh draft can only be fully examined when it has no clues. */
  lemma FreshDraftRevealState(answer: Option<ParsedDraft>)
    ensures AllRevealed(GenerateDailyCase(answer).evidence) <==>
      |GenerateDailyCase(answer).evidence| == 0
  {
    var ev := GenerateDailyCase(answer).evidence;
    if |ev| > 0 {
      assert !ev[0].isRevealed;
    }
  }
}
