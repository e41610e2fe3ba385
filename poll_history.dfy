/**
 * The teacher's history page: every question of a poll in the order it was asked, numbered from
 * one, with each option's share of the answers recomputed from the stored votes.
 */
module PollHistoryView {
  import opened Wrappers
  import opened PollModel
  import opened Tally
  import opened PollLifecycle
  import Decimal

  const NoQuestionsMessage := "No questions asked yet."
  const PollNotFoundMessage := "Poll not found"

  /** `question.studentAnswers?.length || 0`: the number of answers, or 0 when the list is missing. */
  function HistoryTotal(answers: Option<seq<StudentAnswer>>): (total: nat)
    ensures answers.None? ==> total == 0
    ensures answers.Some? ==> total == |answers.value|
  {
    match answers {
      case None => 0
      case Some(list) => |list|
    }
  }

  /**
   * The percentage table, filled one option at a time under the option's index; a missing
   * option list leaves it empty.
   */
  method HistoryPercentages(options: Option<seq<AnswerOption>>, total: nat) returns (percentages: map<nat, nat>)
    ensures options.None? ==> percentages == map[]
    ensures options.Some? ==> forall i: nat :: i in percentages <==> i < |options.value|
    ensures options.Some? ==> forall i :: 0 <= i < |options.value| ==> percentages[i] == Percentages(options.value, total)[i]
  {
    percentages := map[];
    if options.None? {
      return;
    }
    var opts := options.value;
    var idx := 0;
    while idx < |opts|
      invariant 0 <= idx <= |opts|
      invariant forall i: nat :: i in percentages <==> i < idx
      invariant forall i :: 0 <= i < idx ==> percentages[i] == RoundPercent(opts[i].votes, total)
    {
      percentages := percentages[idx := if total > 0 then RoundPercent(opts[idx].votes, total) else 0];
      idx := idx + 1;
    }
  }

  /** One option's votes never exceed the votes of all options together. */
  lemma {:induction false} VoteAtMostSum(options: seq<AnswerOption>, i: nat)
    requires i < |options|
    ensures options[i].votes <= SumVotes(options)
    decreases |options|
  {
    if i > 0 {
      VoteAtMostSum(options[1..], i - 1);
    }
  }

  /**
   * For a stored question, the history shows the same figures as the live results did, and no
   * share is above 100 percent.
   */
  lemma HistoryMatchesLiveTally(q: Question)
    requires QuestionInvariant(q)
    ensures HistoryTotal(Some(q.studentAnswers)) == TallyOf(q).total
    ensures Percentages(q.options, HistoryTotal(Some(q.studentAnswers))) == TallyOf(q).percentages
    ensures forall i :: 0 <= i < |q.options| ==> TallyOf(q).percentages[i] <= 100
  {
    TotalVotesEqualsAnswers(q);
    forall i | 0 <= i < |q.options| ensures TallyOf(q).percentages[i] <= 100 {
      VoteAtMostSum(q.options, i);
      PercentAtMost100(q.options[i].votes, |q.studentAnswers|);
    }
  }

  /** One question as the history lists it. */
  datatype Entry = Entry(heading: string, text: string, optionTexts: seq<string>, percentages: seq<nat>)

  /** The page: the poll could not be fetched, it has no questions, or its questions in order. */
  datatype HistoryPage = PollNotFound(message: string) | NoQuestions(message: string) | Listing(entries: seq<Entry>)

  function EntryOf(q: Question, number: nat): (e: Entry)
    ensures e.heading == "Question " + Decimal.NatToString(number)
    ensures e.text == q.text && e.percentages == Percentages(q.options, |q.studentAnswers|)
    ensures |e.optionTexts| == |q.options| && forall i :: 0 <= i < |q.options| ==> e.optionTexts[i] == q.options[i].text
  {
    Entry("Question " + Decimal.NatToString(number), q.text,
          seq(|q.options|, i requires 0 <= i < |q.options| => q.options[i].text),
          Percentages(q.options, |q.studentAnswers|))
  }

  /** The history page of a fetched poll: questions in stored order, numbered from one. */
  function RenderHistory(fetched: Option<Poll>): (page: HistoryPage)
    ensures fetched.None? <==> page == PollNotFound(PollNotFoundMessage)
    ensures fetched.Some? && fetched.value.questions == [] <==> page == NoQuestions(NoQuestionsMessage)
    ensures page.Listing? ==>
              && |page.entries| == |fetched.value.questions|
              && forall i :: 0 <= i < |page.entries| ==> page.entries[i] == EntryOf(fetched.value.questions[i], i + 1)
  {
    match fetched {
      case None => PollNotFound(PollNotFoundMessage)
      case Some(p) =>
        if p.questions == [] then NoQuestions(NoQuestionsMessage)
        else Listing(seq(|p.questions|, i requires 0 <= i < |p.questions| => EntryOf(p.questions[i], i + 1)))
    }
  }

  /** Different positions get different headings, so no two listed questions share a number. */
  lemma HeadingsDistinct(p: Poll, i: nat, j: nat)
    requires RenderHistory(Some(p)).Listing?
    requires i < j < |p.questions|
    ensures RenderHistory(Some(p)).entries[i].heading != RenderHistory(Some(p)).entries[j].heading
  {
    var page := RenderHistory(Some(p));
    var hi, hj := page.entries[i].heading, page.entries[j].heading;
    assert hi[9..] == Decimal.NatToString(i + 1);
    assert hj[9..] == Decimal.NatToString(j + 1);
    Decimal.ValueOfNatToString(i + 1);
    Decimal.ValueOfNatToString(j + 1);
  }
}
