/** Consensus statistics for one question: counts of Yes/No/Abstain answers,
    the yes-percentage among those who took a position, and whether it reaches
    the fixed 75% threshold. Percentages are integer tenths of a percent
    (750 stands for 75.0). */
module Statistics {
  import opened Schema

  const Yes: string := "Yes"
  const No: string := "No"
  const Abstain: string := "Abstain"

  /** The consensus threshold, 75.0 percent, in tenths of a percent. */
  const ThresholdTenths: nat := 750

  datatype QuestionStats = QuestionStats(
    questionNumber: int,
    questionText: string,
    totalResponses: nat,
    yesCount: nat,
    noCount: nat,
    abstainCount: nat,
    yesPercentage: nat,
    meetsThreshold: bool)

  predicate KnownChoice(c: string) {
    c == Yes || c == No || c == Abstain
  }

  /** How many answers carry exactly the choice `c`. */
  function CountChoice(answers: seq<Answer>, c: string): (n: nat)
    ensures n <= |answers|
  {
    if answers == [] then 0
    else CountChoice(answers[..|answers| - 1], c) + (if answers[|answers| - 1].choice == c then 1 else 0)
  }

  /** `round(part / whole * 100, 1)` in tenths of a percent, rounding the exact
      ratio 1000 * part / whole to the nearest integer, ties to even. */
  function PercentTenths(part: nat, whole: nat): nat
    requires 0 < whole
  {
    RoundHalfEven((1000 * part) / whole, (1000 * part) % whole, whole)
  }

  /** The quotient `q` of a division by `w` with remainder `r`, rounded to the nearest integer, ties to even. */
  function RoundHalfEven(q: nat, r: nat, w: nat): nat {
    if 2 * r > w then q + 1 else if 2 * r < w then q else if q % 2 == 0 then q else q + 1
  }

  lemma MulLe(a: nat, b: nat, c: nat)
    requires a <= b
    ensures a * c <= b * c
  {
  }

  /** The rounded value is within half a unit of the exact 1000 * part / whole,
      and at most 1000 (100.0%) when the part is at most the whole. */
  lemma PercentTenthsSpec(part: nat, whole: nat)
    requires 0 < whole
    ensures var t := PercentTenths(part, whole);
      && 2 * (1000 * part - t * whole) <= whole
      && 2 * (t * whole - 1000 * part) <= whole
      && (part <= whole ==> t <= 1000)
  {
    var d := 1000 * part;
    var q := d / whole;
    var r := d % whole;
    assert d == q * whole + r && 0 <= r < whole;
    var t := PercentTenths(part, whole);
    if t == q + 1 {
      assert t * whole == q * whole + whole;
      assert 2 * r >= whole;
    } else {
      assert t == q && 2 * r <= whole;
    }
    if part <= whole {
      MulLe(part, whole, 1000);
      if q > 1000 {
        MulLe(1001, q, whole);
        assert false;
      }
      if q == 1000 {
        assert r == 0;
      }
    }
  }

  /** The statistics record of `Question.calculate_statistics`. */
  function StatsOf(q: Question, answers: seq<Answer>): (r: QuestionStats)
    ensures r.questionNumber == q.number && r.questionText == q.text
    ensures r.totalResponses == |answers|
  {
    if |answers| == 0 then QuestionStats(q.number, q.text, 0, 0, 0, 0, 0, false)
    else
      var yes := CountChoice(answers, Yes);
      var no := CountChoice(answers, No);
      var pct := if yes + no == 0 then 0 else PercentTenths(yes, yes + no);
      QuestionStats(q.number, q.text, |answers|, yes, no, CountChoice(answers, Abstain), pct, pct >= ThresholdTenths)
  }

  /** `Question.calculate_statistics`: one pass over the answers, tallying each known choice. */
  method CalculateStatistics(q: Question, answers: seq<Answer>) returns (s: QuestionStats)
    ensures s == StatsOf(q, answers)
  {
    if |answers| == 0 {
      return QuestionStats(q.number, q.text, 0, 0, 0, 0, 0, false);
    }
    var yes, no, abstain := 0, 0, 0;
    for i := 0 to |answers|
      invariant yes == CountChoice(answers[..i], Yes)
      invariant no == CountChoice(answers[..i], No)
      invariant abstain == CountChoice(answers[..i], Abstain)
    {
      assert answers[..i + 1][..i] == answers[..i];
      var choice := answers[i].choice;
      if choice == Yes {
        yes := yes + 1;
      } else if choice == No {
        no := no + 1;
      } else if choice == Abstain {
        abstain := abstain + 1;
      }
    }
    assert answers[..|answers|] == answers;
    var pct := 0;
    if yes + no != 0 {
      pct := PercentTenths(yes, yes + no);
    }
    s := QuestionStats(q.number, q.text, |answers|, yes, no, abstain, pct, pct >= ThresholdTenths);
  }

  /** With no answers every figure is zero and the threshold is not met. */
  lemma NoAnswers(q: Question)
    ensures var s := StatsOf(q, []);
      && s.questionNumber == q.number && s.questionText == q.text
      && s.totalResponses == 0 && s.yesCount == 0 && s.noCount == 0 && s.abstainCount == 0
      && s.yesPercentage == 0 && !s.meetsThreshold
  {
  }

  /** The three tallies never exceed the number of answers, and they add up to it
      exactly when every answer carries one of the three known choices. */
  lemma {:induction false} TalliesWithinTotal(answers: seq<Answer>)
    ensures CountChoice(answers, Yes) + CountChoice(answers, No) + CountChoice(answers, Abstain) <= |answers|
    ensures CountChoice(answers, Yes) + CountChoice(answers, No) + CountChoice(answers, Abstain) == |answers|
            <==> forall i :: 0 <= i < |answers| ==> KnownChoice(answers[i].choice)
  {
    if answers != [] {
      var init := answers[..|answers| - 1];
      TalliesWithinTotal(init);
      if forall i :: 0 <= i < |answers| ==> KnownChoice(answers[i].choice) {
        assert forall i :: 0 <= i < |init| ==> KnownChoice(init[i].choice) by {
          forall i | 0 <= i < |init| ensures KnownChoice(init[i].choice) {
            assert init[i] == answers[i];
          }
        }
      } else {
        var k :| 0 <= k < |answers| && !KnownChoice(answers[k].choice);
        if k < |init| {
          assert init[k] == answers[k];
        }
      }
    }
  }

  /** The yes-percentage: zero when nobody answered Yes or No (no division), and
      otherwise 100 * yes / (yes + no) to the nearest tenth, within 0..100. */
  lemma YesPercentageSpec(q: Question, answers: seq<Answer>)
    ensures var s := StatsOf(q, answers);
      && (s.yesCount + s.noCount == 0 ==> s.yesPercentage == 0 && !s.meetsThreshold)
      && s.yesPercentage <= 1000
      && (s.yesCount + s.noCount > 0 ==>
            && 2 * (1000 * s.yesCount - s.yesPercentage * (s.yesCount + s.noCount)) <= s.yesCount + s.noCount
            && 2 * (s.yesPercentage * (s.yesCount + s.noCount) - 1000 * s.yesCount) <= s.yesCount + s.noCount)
  {
    var s := StatsOf(q, answers);
    if answers != [] && s.yesCount + s.noCount > 0 {
      PercentTenthsSpec(s.yesCount, s.yesCount + s.noCount);
    }
  }

  lemma ThresholdOfTenths(yes: nat, no: nat)
    requires yes + no > 0
    ensures PercentTenths(yes, yes + no) >= ThresholdTenths <==> 2000 * yes >= 1499 * (yes + no)
  {
    var w := yes + no;
    var d := 1000 * yes;
    var q := d / w;
    var r := d % w;
    assert d == q * w + r && 0 <= r < w;
    if q >= 750 {
      MulLe(750, q, w);
    } else if q == 749 {
      assert 2000 * yes - 1499 * w == 2 * r - w;
    } else {
      MulLe(q, 748, w);
    }
  }

  /** The threshold is met exactly when someone took a position and the rounded
      yes-share is at least 75.0%, i.e. yes / (yes + no) >= 0.7495. */
  lemma ThresholdExact(q: Question, answers: seq<Answer>)
    ensures var s := StatsOf(q, answers);
      s.meetsThreshold <==> s.yesCount + s.noCount > 0 && 2000 * s.yesCount >= 1499 * (s.yesCount + s.noCount)
  {
    var s := StatsOf(q, answers);
    if answers != [] && s.yesCount + s.noCount > 0 {
      ThresholdOfTenths(s.yesCount, s.noCount);
    }
  }

  /** Three Yes for every No (or better) always passes. */
  lemma ThreeQuartersPass(q: Question, answers: seq<Answer>)
    requires CountChoice(answers, Yes) + CountChoice(answers, No) > 0
    requires 4 * CountChoice(answers, Yes) >= 3 * (CountChoice(answers, Yes) + CountChoice(answers, No))
    ensures StatsOf(q, answers).meetsThreshold
  {
    ThresholdExact(q, answers);
  }

  function Choices(answers: seq<Answer>): (cs: seq<string>)
    ensures |cs| == |answers|
    ensures forall i :: 0 <= i < |answers| ==> cs[i] == answers[i].choice
  {
    seq(|answers|, i requires 0 <= i < |answers| => answers[i].choice)
  }

  /** A tally is the multiplicity of that choice among the answers. */
  lemma {:induction false} CountIsMultiplicity(answers: seq<Answer>, c: string)
    ensures CountChoice(answers, c) == multiset(Choices(answers))[c]
  {
    if answers != [] {
      var init := answers[..|answers| - 1];
      CountIsMultiplicity(init, c);
      assert Choices(answers) == Choices(init) + [answers[|answers| - 1].choice];
    }
  }

  /** The statistics depend only on the multiset of choices, not on the order of the answers. */
  lemma OrderIndependent(q: Question, a: seq<Answer>, b: seq<Answer>)
    requires multiset(Choices(a)) == multiset(Choices(b))
    ensures StatsOf(q, a) == StatsOf(q, b)
  {
    CountIsMultiplicity(a, Yes);
    CountIsMultiplicity(b, Yes);
    CountIsMultiplicity(a, No);
    CountIsMultiplicity(b, No);
    CountIsMultiplicity(a, Abstain);
    CountIsMultiplicity(b, Abstain);
    assert |a| == |multiset(Choices(a))| == |multiset(Choices(b))| == |b|;
  }

  /** One more answer that is not Yes or No changes neither the yes-percentage nor the
      verdict; it counts towards the total and, if it is Abstain, towards the abstentions. */
  lemma NonPositionIgnored(q: Question, answers: seq<Answer>, extra: Answer)
    requires extra.choice != Yes && extra.choice != No
    ensures var before, after := StatsOf(q, answers), StatsOf(q, answers + [extra]);
      && after.yesPercentage == before.yesPercentage
      && after.meetsThreshold == before.meetsThreshold
      && after.yesCount == before.yesCount && after.noCount == before.noCount
      && after.totalResponses == before.totalResponses + 1
      && after.abstainCount == before.abstainCount + (if extra.choice == Abstain then 1 else 0)
  {
    var all := answers + [extra];
    assert all[..|all| - 1] == answers;
    if answers == [] {
      assert CountChoice(answers, Yes) == 0 && CountChoice(answers, No) == 0;
    }
  }

  /** Three Yes, one No and two Abstain: 6 responses, 75.0%, passes. */
  lemma ScenarioPassesAtBoundary(q: Question, yes: Answer, no: Answer, abstain: Answer)
    requires yes.choice == Yes && no.choice == No && abstain.choice == Abstain
    ensures var s := StatsOf(q, [yes, yes, yes, no, abstain, abstain]);
      s.totalResponses == 6 && s.yesCount == 3 && s.noCount == 1 && s.abstainCount == 2
      && s.yesPercentage == 750 && s.meetsThreshold
  {
    var a := [yes, yes, yes, no, abstain, abstain];
    var m := multiset(Choices(a));
    assert Choices(a) == [Yes, Yes, Yes, No, Abstain, Abstain];
    assert m[Yes] == 3 && m[No] == 1 && m[Abstain] == 2;
    CountIsMultiplicity(a, Yes);
    CountIsMultiplicity(a, No);
    CountIsMultiplicity(a, Abstain);
  }

  /** One Yes and three No: 25.0%, fails. */
  lemma ScenarioFails(q: Question, yes: Answer, no: Answer)
    requires yes.choice == Yes && no.choice == No
    ensures var s := StatsOf(q, [yes, no, no, no]);
      s.totalResponses == 4 && s.yesPercentage == 250 && !s.meetsThreshold
  {
    var a := [yes, no, no, no];
    var m := multiset(Choices(a));
    assert Choices(a) == [Yes, No, No, No];
    assert m[Yes] == 1 && m[No] == 3;
    CountIsMultiplicity(a, Yes);
    CountIsMultiplicity(a, No);
  }
}
