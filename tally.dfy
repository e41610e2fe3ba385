/**
 * Per-question tallies: the vote count of every option, the rounded percentage of every option,
 * and the number of answers they are taken over; plus the correctness facts the private
 * feedback reveals.
 */
module Tally {
  import opened Wrappers
  import opened PollModel

  /** The figures broadcast as results: counts and percentages indexed by option, and the total. */
  datatype Tally = Tally(counts: seq<nat>, percentages: seq<nat>, total: nat)

  /** `a * b` grows with `b` when `a` is not negative. */
  lemma MulMonotone(a: int, b: int, c: int)
    requires a >= 0
    ensures b <= c ==> a * b <= a * c
  {
    assert a * c - a * b == a * (c - b);
  }

  /** A strict inequality between two multiples of a positive number holds between the factors. */
  lemma MulCancel(a: int, b: int, c: int)
    requires a > 0
    ensures a * b < a * c ==> b < c
  {
    MulMonotone(a, c, b);
  }

  /**
   * `total > 0 ? Math.round((votes / total) * 100) : 0`, in exact arithmetic: the integer
   * nearest to 100 * votes / total, halves rounded up.
   */
  function RoundPercent(votes: nat, total: nat): (p: nat)
    ensures total == 0 ==> p == 0
    ensures total > 0 ==> (2 * total) * p <= 200 * votes + total < (2 * total) * (p + 1)
  {
    if total > 0 then (200 * votes + total) / (2 * total) else 0
  }

  /** A share of the answers is never more than 100 percent. */
  lemma PercentAtMost100(votes: nat, total: nat)
    requires votes <= total
    ensures RoundPercent(votes, total) <= 100
  {
    var p := RoundPercent(votes, total);
    var d := 2 * total;
    if total > 0 {
      assert d * p < d * 101;
      MulCancel(d, p, 101);
    }
  }

  /** More votes never give a smaller percentage. */
  lemma PercentMonotone(v1: nat, v2: nat, total: nat)
    requires v1 <= v2
    ensures RoundPercent(v1, total) <= RoundPercent(v2, total)
  {
    var p1, p2 := RoundPercent(v1, total), RoundPercent(v2, total);
    var d := 2 * total;
    if total > 0 {
      assert d * p1 < d * (p2 + 1);
      MulCancel(d, p1, p2 + 1);
    }
  }

  /** All votes for one option give exactly 100 percent. */
  lemma PercentOfAll(total: nat)
    requires total > 0
    ensures RoundPercent(total, total) == 100
  {
    var p := RoundPercent(total, total);
    var d := 2 * total;
    assert d * p < d * 101;
    MulCancel(d, p, 101);
    assert d * 100 < d * (p + 1);
    MulCancel(d, 100, p + 1);
  }

  /** `counts[idx] = opt.votes` for every option. */
  function Counts(options: seq<AnswerOption>): (c: seq<nat>)
    ensures |c| == |options|
    ensures forall i :: 0 <= i < |c| ==> c[i] == options[i].votes
  {
    seq(|options|, i requires 0 <= i < |options| => options[i].votes)
  }

  /** `percentages[idx]` for every option, over `total` answers. */
  function Percentages(options: seq<AnswerOption>, total: nat): (p: seq<nat>)
    ensures |p| == |options|
    ensures forall i :: 0 <= i < |p| ==> p[i] == RoundPercent(options[i].votes, total)
  {
    seq(|options|, i requires 0 <= i < |options| => RoundPercent(options[i].votes, total))
  }

  /** The tally of a question: its options' votes and percentages over its number of answers. */
  function TallyOf(q: Question): (t: Tally)
    ensures t.total == |q.studentAnswers|
    ensures t.counts == Counts(q.options) && t.percentages == Percentages(q.options, t.total)
  {
    var total := |q.studentAnswers|;
    Tally(Counts(q.options), Percentages(q.options, total), total)
  }

  /** With no answers yet every percentage is 0. */
  lemma NoAnswersAllZero(options: seq<AnswerOption>)
    ensures forall i :: 0 <= i < |options| ==> Percentages(options, 0)[i] == 0
  {
  }

  function Sum(s: seq<nat>): nat {
    if s == [] then 0 else s[0] + Sum(s[1..])
  }

  function SumVotes(options: seq<AnswerOption>): nat {
    if options == [] then 0 else options[0].votes + SumVotes(options[1..])
  }

  /** How far each option's percentage was rounded, summed: each term lies in [0, 2 * total). */
  function RoundingSlack(options: seq<AnswerOption>, total: nat): int {
    if options == [] then 0
    else 200 * options[0].votes + total - (2 * total) * RoundPercent(options[0].votes, total)
         + RoundingSlack(options[1..], total)
  }

  lemma {:induction false} RoundingSlackBounds(options: seq<AnswerOption>, total: nat)
    requires total > 0
    ensures 0 <= RoundingSlack(options, total) <= |options| * (2 * total)
    decreases |options|
  {
    if options != [] {
      RoundingSlackBounds(options[1..], total);
      assert |options| * (2 * total) == 2 * total + |options[1..]| * (2 * total);
    }
  }

  lemma {:induction false} RoundingSlackSum(options: seq<AnswerOption>, total: nat)
    ensures RoundingSlack(options, total)
            == 200 * SumVotes(options) + |options| * total - (2 * total) * Sum(Percentages(options, total))
    decreases |options|
  {
    var ps := Percentages(options, total);
    if options != [] {
      var rest := options[1..];
      RoundingSlackSum(rest, total);
      assert Percentages(rest, total) == ps[1..];
      SlackStep(options[0].votes, SumVotes(rest), total, ps[0], Sum(ps[1..]), |rest|);
    }
  }

  /** The arithmetic of one step of `RoundingSlackSum`: peeling off the first option. */
  lemma SlackStep(v: int, vs: int, t: int, p: int, ps: int, n: int)
    ensures (200 * v + t - (2 * t) * p) + (200 * vs + n * t - (2 * t) * ps)
            == 200 * (v + vs) + (n + 1) * t - (2 * t) * (p + ps)
  {
    assert (2 * t) * (p + ps) == (2 * t) * p + (2 * t) * ps;
    assert (n + 1) * t == n * t + t;
  }

  /**
   * When the votes add up to the number of answers, the percentages add up to 100 up to the
   * rounding of each option: within half a point per option.
   */
  lemma PercentagesSumNear100(options: seq<AnswerOption>, total: nat)
    requires total > 0 && SumVotes(options) == total
    ensures 200 - |options| <= 2 * Sum(Percentages(options, total)) <= 200 + |options|
  {
    RoundingSlackBounds(options, total);
    RoundingSlackSum(options, total);
    SlackArithmetic(total, |options|, Sum(Percentages(options, total)), RoundingSlack(options, total));
  }

  /** The arithmetic behind `PercentagesSumNear100`: divide the slack bounds by the total. */
  lemma SlackArithmetic(t: int, n: int, s: int, slack: int)
    requires t > 0
    requires slack == 200 * t + n * t - (2 * t) * s
    requires 0 <= slack <= n * (2 * t)
    ensures 200 - n <= 2 * s <= 200 + n
  {
    var x := 200 + n - 2 * s;
    assert slack == t * x;
    assert t * (-1) < t * x;
    MulCancel(t, -1, x);
    assert t * x < t * (2 * n + 1);
    MulCancel(t, x, 2 * n + 1);
  }

  /** The index of the first option flagged correct, if any: what `options.find(opt => opt.isCorrect)` picks. */
  function FirstCorrect(options: seq<AnswerOption>): (r: Option<nat>)
    ensures r.None? <==> forall i :: 0 <= i < |options| ==> !options[i].isCorrect
    ensures r.Some? ==> r.value < |options| && options[r.value].isCorrect
    ensures r.Some? ==> forall j :: 0 <= j < r.value ==> !options[j].isCorrect
  {
    if options == [] then None
    else if options[0].isCorrect then Some(0)
    else match FirstCorrect(options[1..]) {
      case None => None
      case Some(k) => Some(k + 1)
    }
  }

  /** The `correctAnswer` revealed in the feedback: the first correct option's text, or null. */
  function CorrectAnswer(options: seq<AnswerOption>): (r: Option<string>)
    ensures r.None? <==> forall i :: 0 <= i < |options| ==> !options[i].isCorrect
    ensures r.Some? ==> exists i :: 0 <= i < |options| && options[i].isCorrect && options[i].text == r.value
                                    && forall j :: 0 <= j < i ==> !options[j].isCorrect
  {
    match FirstCorrect(options) {
      case None => None
      case Some(k) => Some(options[k].text)
    }
  }
}
