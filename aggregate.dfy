/** The survey aggregate: the canonical question order used by every report
    (`Survey.get_all_questions`) and the statistics list mapped over it
    (`Survey.get_all_statistics`). */
module Aggregate {
  import opened Schema
  import opened Ordering
  import opened Statistics

  function SectionKey(s: Section): int {
    s.number
  }

  function QuestionKey(q: Question): int {
    q.number
  }

  /** `sorted(survey.sections, key=section_number)`. */
  function OrderedSections(survey: Survey): seq<Section> {
    SortBy(survey.sections, SectionKey)
  }

  /** `sorted(section.questions, key=question_number)`. */
  function OrderedQuestions(section: Section): seq<Question> {
    SortBy(section.questions, QuestionKey)
  }

  /** A question placed in the canonical order, with the position of its section
      among the ordered sections and that section's number. */
  datatype Slot = Slot(block: nat, sectionNumber: int, question: Question)

  function Block(block: nat, section: Section): (r: seq<Slot>)
    ensures |r| == |OrderedQuestions(section)|
    ensures forall i :: 0 <= i < |r| ==> r[i] == Slot(block, section.number, OrderedQuestions(section)[i])
  {
    var qs := OrderedQuestions(section);
    seq(|qs|, i requires 0 <= i < |qs| => Slot(block, section.number, qs[i]))
  }

  /** The sections' sorted question blocks, one after the other; the first
      section is block `first`. */
  function Layout(sections: seq<Section>, first: nat): seq<Slot> {
    if sections == [] then [] else Block(first, sections[0]) + Layout(sections[1..], first + 1)
  }

  function QuestionsOf(slots: seq<Slot>): (qs: seq<Question>)
    ensures |qs| == |slots|
    ensures forall i :: 0 <= i < |slots| ==> qs[i] == slots[i].question
  {
    seq(|slots|, i requires 0 <= i < |slots| => slots[i].question)
  }

  /** The canonical question order of a survey. */
  function AllQuestions(survey: Survey): seq<Question> {
    QuestionsOf(Layout(OrderedSections(survey), 0))
  }

  /** Every section's questions in storage order, sections in storage order. */
  function Stored(sections: seq<Section>): seq<Question> {
    if sections == [] then [] else sections[0].questions + Stored(sections[1..])
  }

  function QuestionTotal(sections: seq<Section>): nat {
    if sections == [] then 0 else |sections[0].questions| + QuestionTotal(sections[1..])
  }

  lemma QuestionsOfAppend(a: seq<Slot>, b: seq<Slot>)
    ensures QuestionsOf(a + b) == QuestionsOf(a) + QuestionsOf(b)
  {
  }

  lemma QuestionsOfBlock(block: nat, section: Section)
    ensures QuestionsOf(Block(block, section)) == OrderedQuestions(section)
  {
  }

  lemma LayoutStep(sections: seq<Section>, i: nat)
    requires i < |sections|
    ensures QuestionsOf(Layout(sections[i..], i)) == OrderedQuestions(sections[i]) + QuestionsOf(Layout(sections[i + 1..], i + 1))
  {
    assert sections[i..][1..] == sections[i + 1..];
    QuestionsOfAppend(Block(i, sections[i]), Layout(sections[i + 1..], i + 1));
    QuestionsOfBlock(i, sections[i]);
  }

  /** `Survey.get_all_questions`: sections sorted by number, each section's
      questions sorted by number, blocks appended in that order. */
  method GetAllQuestions(survey: Survey) returns (all: seq<Question>)
    ensures all == AllQuestions(survey)
  {
    var ordered := SortBy(survey.sections, SectionKey);
    all := [];
    for i := 0 to |ordered|
      invariant all + QuestionsOf(Layout(ordered[i..], i)) == AllQuestions(survey)
    {
      var sectionQuestions := SortBy(ordered[i].questions, QuestionKey);
      LayoutStep(ordered, i);
      AppendAssoc(all, sectionQuestions, QuestionsOf(Layout(ordered[i + 1..], i + 1)));
      all := all + sectionQuestions;
    }
  }

  lemma {:induction false} LayoutHoldsStored(sections: seq<Section>, first: nat)
    ensures multiset(QuestionsOf(Layout(sections, first))) == multiset(Stored(sections))
  {
    if sections != [] {
      LayoutHoldsStored(sections[1..], first + 1);
      QuestionsOfAppend(Block(first, sections[0]), Layout(sections[1..], first + 1));
      QuestionsOfBlock(first, sections[0]);
      SortByPermutation(sections[0].questions, QuestionKey);
    }
  }

  lemma {:induction false} StoredInsert(x: Section, sections: seq<Section>)
    ensures multiset(Stored(Insert(x, sections, SectionKey))) == multiset(x.questions) + multiset(Stored(sections))
  {
    if sections != [] && SectionKey(x) > SectionKey(sections[0]) {
      StoredInsert(x, sections[1..]);
      assert Insert(x, sections, SectionKey)[1..] == Insert(x, sections[1..], SectionKey);
    } else {
      assert ([x] + sections)[1..] == sections;
    }
  }

  lemma {:induction false} StoredSorted(sections: seq<Section>)
    ensures multiset(Stored(SortBy(sections, SectionKey))) == multiset(Stored(sections))
  {
    if sections != [] {
      StoredSorted(sections[1..]);
      StoredInsert(sections[0], SortBy(sections[1..], SectionKey));
    }
  }

  lemma {:induction false} StoredLength(sections: seq<Section>)
    ensures |Stored(sections)| == QuestionTotal(sections)
  {
    if sections != [] {
      StoredLength(sections[1..]);
    }
  }

  /** Every question of every section appears in the canonical order exactly as
      often as it is stored, so its length is the sum of the sections' question counts. */
  lemma EveryQuestionOnce(survey: Survey)
    ensures multiset(AllQuestions(survey)) == multiset(Stored(survey.sections))
    ensures |AllQuestions(survey)| == QuestionTotal(survey.sections)
  {
    LayoutHoldsStored(OrderedSections(survey), 0);
    StoredSorted(survey.sections);
    StoredLength(survey.sections);
    assert |AllQuestions(survey)| == |multiset(AllQuestions(survey))|;
    assert |Stored(survey.sections)| == |multiset(Stored(survey.sections))|;
  }

  /** Every slot of a block holds one of that section's own questions. */
  lemma BlockMembers(block: nat, section: Section)
    ensures forall i :: 0 <= i < |Block(block, section)| ==> Block(block, section)[i].question in section.questions
  {
    var qs := OrderedQuestions(section);
    SortByPermutation(section.questions, QuestionKey);
    forall i | 0 <= i < |qs|
      ensures qs[i] in section.questions
    {
      assert qs[i] in multiset(qs);
    }
  }

  lemma {:induction false} LayoutBounds(sections: seq<Section>, first: nat)
    ensures forall i :: 0 <= i < |Layout(sections, first)| ==>
      && first <= Layout(sections, first)[i].block < first + |sections|
      && Layout(sections, first)[i].sectionNumber == sections[Layout(sections, first)[i].block - first].number
      && Layout(sections, first)[i].question in sections[Layout(sections, first)[i].block - first].questions
  {
    if sections != [] {
      LayoutBounds(sections[1..], first + 1);
      BlockMembers(first, sections[0]);
      var b := Block(first, sections[0]);
      var rest := Layout(sections[1..], first + 1);
      forall k | 0 <= k < |rest|
        ensures sections[rest[k].block - first].number == rest[k].sectionNumber
        ensures rest[k].question in sections[rest[k].block - first].questions
      {
        assert sections[1..][rest[k].block - (first + 1)] == sections[rest[k].block - first];
      }
      var l := b + rest;
      forall i | 0 <= i < |l|
        ensures first <= l[i].block < first + |sections|
        ensures l[i].sectionNumber == sections[l[i].block - first].number
        ensures l[i].question in sections[l[i].block - first].questions
      {
        if i < |b| {
          assert l[i] == b[i];
        } else {
          assert l[i] == rest[i - |b|];
        }
      }
    }
  }

  /** Block positions never decrease, and inside one block question numbers never decrease. */
  ghost predicate BlocksOrdered(l: seq<Slot>) {
    forall i, j :: 0 <= i < j < |l| ==>
      l[i].block < l[j].block || (l[i].block == l[j].block && l[i].question.number <= l[j].question.number)
  }

  lemma {:induction false} LayoutOrdered(sections: seq<Section>, first: nat)
    ensures BlocksOrdered(Layout(sections, first))
  {
    if sections != [] {
      var b := Block(first, sections[0]);
      var rest := Layout(sections[1..], first + 1);
      LayoutOrdered(sections[1..], first + 1);
      assert BlocksOrdered(rest);
      LayoutBounds(sections[1..], first + 1);
      SortBySorted(sections[0].questions, QuestionKey);
      var l := b + rest;
      forall i, j | 0 <= i < j < |l|
        ensures l[i].block < l[j].block || (l[i].block == l[j].block && l[i].question.number <= l[j].question.number)
      {
        if j < |b| {
          assert l[i] == b[i] && l[j] == b[j];
          assert b[i].question == OrderedQuestions(sections[0])[i] && b[j].question == OrderedQuestions(sections[0])[j];
          assert QuestionKey(OrderedQuestions(sections[0])[i]) <= QuestionKey(OrderedQuestions(sections[0])[j]);
        } else if i >= |b| {
          assert l[i] == rest[i - |b|] && l[j] == rest[j - |b|];
        } else {
          assert l[i] == b[i] && l[i].block == first;
          assert l[j] == rest[j - |b|] && rest[j - |b|].block >= first + 1;
        }
      }
    }
  }

  /** Sections ordered by number give section numbers that never decrease along the layout. */
  lemma {:induction false} LayoutSectionOrder(sections: seq<Section>, first: nat)
    requires SortedBy(sections, SectionKey)
    ensures var l := Layout(sections, first);
      forall i, j :: 0 <= i < j < |l| ==> l[i].sectionNumber <= l[j].sectionNumber
  {
    LayoutOrdered(sections, first);
    LayoutBounds(sections, first);
    var l := Layout(sections, first);
    forall i, j | 0 <= i < j < |l|
      ensures l[i].sectionNumber <= l[j].sectionNumber
    {
      var bi, bj := l[i].block - first, l[j].block - first;
      assert bi <= bj;
      if bi < bj {
        assert SectionKey(sections[bi]) <= SectionKey(sections[bj]);
      }
    }
  }

  /** The canonical order: every question of a section with a smaller number comes
      before every question of a section with a larger number, each section's
      questions form one block in question-number order, and block b holds only
      questions of the b-th section in number order. */
  lemma CanonicalOrder(survey: Survey)
    ensures var l := Layout(OrderedSections(survey), 0);
      && AllQuestions(survey) == QuestionsOf(l)
      && (forall i, j :: 0 <= i < j < |l| ==> l[i].sectionNumber <= l[j].sectionNumber)
      && (forall i, j :: 0 <= i < j < |l| && l[i].block == l[j].block ==> l[i].question.number <= l[j].question.number)
      && (forall i :: 0 <= i < |l| ==>
            && l[i].block < |OrderedSections(survey)|
            && l[i].sectionNumber == OrderedSections(survey)[l[i].block].number
            && l[i].question in OrderedSections(survey)[l[i].block].questions)
  {
    SortBySorted(survey.sections, SectionKey);
    SortByPermutation(survey.sections, SectionKey);
    LayoutSectionOrder(OrderedSections(survey), 0);
    LayoutOrdered(OrderedSections(survey), 0);
    LayoutBounds(OrderedSections(survey), 0);
  }

  /** When no two different sections share a number, the canonical order depends
      only on which sections the survey holds, not on the order they are stored in. */
  lemma StorageOrderIrrelevant(s1: Survey, s2: Survey)
    requires multiset(s1.sections) == multiset(s2.sections)
    requires KeysIdentify(multiset(s1.sections), SectionKey)
    ensures AllQuestions(s1) == AllQuestions(s2)
  {
    SortByIgnoresStorageOrder(s1.sections, s2.sections, SectionKey);
  }

  /** The statistics of each question, as `get_all_statistics` lists them. */
  function StatsList(qs: seq<Question>, table: seq<Answer>): (r: seq<QuestionStats>)
    ensures |r| == |qs|
    ensures forall i :: 0 <= i < |qs| ==> r[i] == StatsOf(qs[i], AnswersFor(table, qs[i].id))
  {
    if qs == [] then []
    else
      var init := StatsList(qs[..|qs| - 1], table);
      assert forall i :: 0 <= i < |qs| - 1 ==> qs[..|qs| - 1][i] == qs[i];
      init + [StatsOf(qs[|qs| - 1], AnswersFor(table, qs[|qs| - 1].id))]
  }

  /** `Survey.get_all_statistics`: the statistics of each question, in canonical order,
      computed over the answers recorded for that question. */
  method GetAllStatistics(survey: Survey, table: seq<Answer>) returns (stats: seq<QuestionStats>)
    ensures stats == StatsList(AllQuestions(survey), table)
    ensures var qs := AllQuestions(survey);
      && |stats| == |qs|
      && forall i :: 0 <= i < |qs| ==> stats[i] == StatsOf(qs[i], AnswersFor(table, qs[i].id))
  {
    var questions := GetAllQuestions(survey);
    stats := [];
    for i := 0 to |questions|
      invariant stats == StatsList(questions[..i], table)
    {
      var s := CalculateStatistics(questions[i], AnswersFor(table, questions[i].id));
      assert questions[..i + 1][..i] == questions[..i];
      stats := stats + [s];
    }
    assert questions[..|questions|] == questions;
    assert stats == StatsList(AllQuestions(survey), table);
  }
}
