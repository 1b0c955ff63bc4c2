/** The administrator's routes of routes/admin.py that compute something: the
    survey built from the manual-creation and edit forms, the pass/fail tallies of
    the results page, the rows of the spreadsheet export, the passed/failed
    partition of the PDF report with its no-percentage, comments and escaping, and
    the file name made from a survey title. */
module Admin {
  import opened Schema
  import opened Text
  import opened Ordering
  import opened Statistics
  import opened Aggregate

  /** The fields of the create and edit forms: `title`, `description`,
      `section_<i>_title`, `section_<i>_description` and `section_<i>_question_<j>`. */
  datatype FormKey =
    | TitleField
    | DescriptionField
    | SectionTitleField(section: int)
    | SectionDescriptionField(section: int)
    | QuestionField(section: int, question: int)

  type AdminForm = map<FormKey, string>

  /** `request.form.get(key, default)`. */
  function Get(form: AdminForm, key: FormKey, default: string): string {
    if key in form then form[key] else default
  }

  datatype DraftQuestion = DraftQuestion(number: int, text: string)

  datatype DraftSection = DraftSection(number: int, title: string, description: string, questions: seq<DraftQuestion>)

  /** The survey a form describes, before the database assigns identifiers. */
  datatype DraftSurvey = DraftSurvey(title: string, description: string, sections: seq<DraftSection>)

  /** The section-title fields numbered `i` or more: finitely many, so the section loop ends. */
  function TitleKeysFrom(form: AdminForm, i: int): set<FormKey> {
    set k | k in form.Keys && k.SectionTitleField? && k.section >= i
  }

  function QuestionKeysFrom(form: AdminForm, s: int, j: int): set<FormKey> {
    set k | k in form.Keys && k.QuestionField? && k.section == s && k.question >= j
  }

  lemma {:induction false} SubsetCard<T>(a: set<T>, b: set<T>)
    requires a <= b
    ensures |a| <= |b|
  {
    if a != {} {
      var x :| x in a;
      SubsetCard(a - {x}, b - {x});
    }
  }

  lemma TitleKeysShrink(form: AdminForm, i: int)
    requires SectionTitleField(i) in form
    ensures |TitleKeysFrom(form, i + 1)| < |TitleKeysFrom(form, i)|
  {
    var later, all := TitleKeysFrom(form, i + 1), TitleKeysFrom(form, i);
    var k := SectionTitleField(i);
    assert k in all;
    SubsetCard(later, all - {k});
  }

  lemma QuestionKeysShrink(form: AdminForm, s: int, j: int)
    requires QuestionField(s, j) in form
    ensures |QuestionKeysFrom(form, s, j + 1)| < |QuestionKeysFrom(form, s, j)|
  {
    var later, all := QuestionKeysFrom(form, s, j + 1), QuestionKeysFrom(form, s, j);
    var k := QuestionField(s, j);
    assert k in all;
    SubsetCard(later, all - {k});
  }

  /** Section `s`'s questions from number `j` on, read until the first missing field;
      each is stripped, blank ones are skipped, and each keeps its field number. */
  function QuestionsFrom(form: AdminForm, s: int, j: int): seq<DraftQuestion>
    decreases |QuestionKeysFrom(form, s, j)|
  {
    if QuestionField(s, j) !in form then []
    else
      QuestionKeysShrink(form, s, j);
      var text := Strip(form[QuestionField(s, j)]);
      (if text == [] then [] else [DraftQuestion(j, text)]) + QuestionsFrom(form, s, j + 1)
  }

  /** The sections `create_manual_survey` builds from number `i` on: titles are
      stripped, a section whose title is blank is skipped with its questions, and a
      section keeps its field number. */
  function CreatedSections(form: AdminForm, i: int): seq<DraftSection>
    decreases |TitleKeysFrom(form, i)|
  {
    if SectionTitleField(i) !in form then []
    else
      TitleKeysShrink(form, i);
      var title := Strip(form[SectionTitleField(i)]);
      (if title == [] then []
       else [DraftSection(i, title, Get(form, SectionDescriptionField(i), ""), QuestionsFrom(form, i, 1))])
      + CreatedSections(form, i + 1)
  }

  /** The sections `update_survey` rebuilds from number `i` on: titles are kept as
      submitted, blank ones included. */
  function UpdatedSections(form: AdminForm, i: int): seq<DraftSection>
    decreases |TitleKeysFrom(form, i)|
  {
    if SectionTitleField(i) !in form then []
    else
      TitleKeysShrink(form, i);
      [DraftSection(i, form[SectionTitleField(i)], Get(form, SectionDescriptionField(i), ""), QuestionsFrom(form, i, 1))]
      + UpdatedSections(form, i + 1)
  }

  function QuestionCount(sections: seq<DraftSection>): nat {
    if sections == [] then 0 else |sections[0].questions| + QuestionCount(sections[1..])
  }

  datatype CreateOutcome = TitleMissing | NoQuestions | Created(survey: DraftSurvey)

  /** `create_manual_survey`: a blank title is refused, a survey without a single
      question is rolled back, otherwise the survey keeps the title as submitted. */
  function CreateManual(form: AdminForm): CreateOutcome {
    if TitleField !in form || Strip(form[TitleField]) == [] then TitleMissing
    else
      var sections := CreatedSections(form, 1);
      if QuestionCount(sections) == 0 then NoQuestions
      else Created(DraftSurvey(form[TitleField], Get(form, DescriptionField, ""), sections))
  }

  /** `update_survey`: the title falls back to the old one, the description to empty,
      and every section is replaced by the form's. */
  function UpdateSurvey(oldTitle: string, form: AdminForm): DraftSurvey {
    DraftSurvey(Get(form, TitleField, oldTitle), Get(form, DescriptionField, ""), UpdatedSections(form, 1))
  }

  /** The inner question loop shared by the create and edit routes. */
  method ParseQuestions(form: AdminForm, s: int) returns (questions: seq<DraftQuestion>)
    ensures questions == QuestionsFrom(form, s, 1)
  {
    questions := [];
    var j := 1;
    while true
      invariant questions + QuestionsFrom(form, s, j) == QuestionsFrom(form, s, 1)
      decreases |QuestionKeysFrom(form, s, j)|
    {
      if QuestionField(s, j) !in form {
        break;
      }
      QuestionKeysShrink(form, s, j);
      var text := Strip(form[QuestionField(s, j)]);
      var next := if text == [] then [] else [DraftQuestion(j, text)];
      assert QuestionsFrom(form, s, j) == next + QuestionsFrom(form, s, j + 1);
      AppendAssoc(questions, next, QuestionsFrom(form, s, j + 1));
      questions := questions + next;
      j := j + 1;
    }
    assert QuestionsFrom(form, s, j) == [];
    assert questions + [] == questions;
  }

  /** `create_manual_survey`, with its running count of questions. */
  method CreateManualSurvey(form: AdminForm) returns (outcome: CreateOutcome)
    ensures outcome == CreateManual(form)
  {
    if TitleField !in form || Strip(form[TitleField]) == [] {
      return TitleMissing;
    }
    var sections: seq<DraftSection> := [];
    var total := 0;
    var i := 1;
    while true
      invariant sections + CreatedSections(form, i) == CreatedSections(form, 1)
      invariant total == QuestionCount(sections)
      decreases |TitleKeysFrom(form, i)|
    {
      if SectionTitleField(i) !in form {
        break;
      }
      TitleKeysShrink(form, i);
      var title := Strip(form[SectionTitleField(i)]);
      if title == [] {
        assert CreatedSections(form, i) == CreatedSections(form, i + 1);
        i := i + 1;
        continue;
      }
      var questions := ParseQuestions(form, i);
      var section := DraftSection(i, title, Get(form, SectionDescriptionField(i), ""), questions);
      assert CreatedSections(form, i) == [section] + CreatedSections(form, i + 1);
      AppendAssoc(sections, [section], CreatedSections(form, i + 1));
      QuestionCountAppend(sections, [section]);
      sections := sections + [section];
      total := total + |questions|;
      i := i + 1;
    }
    assert CreatedSections(form, i) == [];
    assert sections + [] == sections;
    if total == 0 {
      return NoQuestions;
    }
    return Created(DraftSurvey(form[TitleField], Get(form, DescriptionField, ""), sections));
  }

  /** `update_survey`. */
  method UpdateSurveyFromForm(oldTitle: string, form: AdminForm) returns (survey: DraftSurvey)
    ensures survey == UpdateSurvey(oldTitle, form)
  {
    var title := Get(form, TitleField, oldTitle);
    var description := Get(form, DescriptionField, "");
    var sections: seq<DraftSection> := [];
    var i := 1;
    while true
      invariant sections + UpdatedSections(form, i) == UpdatedSections(form, 1)
      decreases |TitleKeysFrom(form, i)|
    {
      if SectionTitleField(i) !in form {
        break;
      }
      TitleKeysShrink(form, i);
      var questions := ParseQuestions(form, i);
      var section := DraftSection(i, form[SectionTitleField(i)], Get(form, SectionDescriptionField(i), ""), questions);
      assert UpdatedSections(form, i) == [section] + UpdatedSections(form, i + 1);
      AppendAssoc(sections, [section], UpdatedSections(form, i + 1));
      sections := sections + [section];
      i := i + 1;
    }
    assert UpdatedSections(form, i) == [];
    assert sections + [] == sections;
    survey := DraftSurvey(title, description, sections);
  }

  lemma {:induction false} QuestionCountAppend(a: seq<DraftSection>, b: seq<DraftSection>)
    ensures QuestionCount(a + b) == QuestionCount(a) + QuestionCount(b)
  {
    if a == [] {
      assert a + b == b;
    } else {
      assert (a + b)[1..] == a[1..] + b;
      QuestionCountAppend(a[1..], b);
    }
  }

  /** Every field from `from` to `to` of section `s` is present. */
  ghost predicate QuestionsPresent(form: AdminForm, s: int, from: int, to: int) {
    forall k :: from <= k <= to ==> QuestionField(s, k) in form
  }

  /** A question is read exactly when every field up to its own is present and its
      text strips to something; it is stored stripped, under its field number. */
  lemma {:induction false} QuestionsFromMembers(form: AdminForm, s: int, j: int, q: DraftQuestion)
    ensures q in QuestionsFrom(form, s, j) <==>
      && j <= q.number && QuestionsPresent(form, s, j, q.number)
      && q.text == Strip(form[QuestionField(s, q.number)]) && q.text != []
    decreases |QuestionKeysFrom(form, s, j)|
  {
    if QuestionField(s, j) in form {
      QuestionKeysShrink(form, s, j);
      QuestionsFromMembers(form, s, j + 1, q);
      if j < q.number && QuestionsPresent(form, s, j + 1, q.number) {
        assert QuestionsPresent(form, s, j, q.number);
      }
    }
  }

  /** Every section-title field from `from` to `to` is present. */
  ghost predicate TitlesPresent(form: AdminForm, from: int, to: int) {
    forall k :: from <= k <= to ==> SectionTitleField(k) in form
  }

  /** A section is created exactly when every title field up to its own is present
      and its title strips to something; it carries its field number, the stripped
      title, the description field (empty when absent) and that section's questions. */
  lemma {:induction false} CreatedSectionsMembers(form: AdminForm, i: int, d: DraftSection)
    ensures d in CreatedSections(form, i) <==>
      && i <= d.number && TitlesPresent(form, i, d.number)
      && Strip(form[SectionTitleField(d.number)]) != []
      && d.title == Strip(form[SectionTitleField(d.number)])
      && d.description == Get(form, SectionDescriptionField(d.number), "")
      && d.questions == QuestionsFrom(form, d.number, 1)
    decreases |TitleKeysFrom(form, i)|
  {
    if SectionTitleField(i) in form {
      TitleKeysShrink(form, i);
      CreatedSectionsMembers(form, i + 1, d);
      if i < d.number && TitlesPresent(form, i + 1, d.number) {
        assert TitlesPresent(form, i, d.number);
      }
    }
  }

  /** A section is rebuilt by an edit exactly when every title field up to its own
      is present; it carries its field number, the title as submitted (blank or not),
      the description field and that section's questions. */
  lemma {:induction false} UpdatedSectionsMembers(form: AdminForm, i: int, d: DraftSection)
    ensures d in UpdatedSections(form, i) <==>
      && i <= d.number && TitlesPresent(form, i, d.number)
      && d.title == form[SectionTitleField(d.number)]
      && d.description == Get(form, SectionDescriptionField(d.number), "")
      && d.questions == QuestionsFrom(form, d.number, 1)
    decreases |TitleKeysFrom(form, i)|
  {
    if SectionTitleField(i) in form {
      TitleKeysShrink(form, i);
      UpdatedSectionsMembers(form, i + 1, d);
      if i < d.number && TitlesPresent(form, i + 1, d.number) {
        assert TitlesPresent(form, i, d.number);
      }
    }
  }

  /** Field numbers are `j` or more and strictly increasing. */
  ghost predicate IncreasingFrom(qs: seq<DraftQuestion>, j: int) {
    && (forall k :: 0 <= k < |qs| ==> j <= qs[k].number)
    && (forall a, b :: 0 <= a < b < |qs| ==> qs[a].number < qs[b].number)
  }

  lemma PrependQuestion(head: seq<DraftQuestion>, rest: seq<DraftQuestion>, j: int)
    requires |head| <= 1 && (head != [] ==> head[0].number == j)
    requires IncreasingFrom(rest, j + 1)
    ensures IncreasingFrom(head + rest, j)
  {
    var qs := head + rest;
    forall a, b | 0 <= a < b < |qs|
      ensures qs[a].number < qs[b].number
    {
      assert qs[b] == rest[b - |head|];
      if a >= |head| {
        assert qs[a] == rest[a - |head|];
      }
    }
    forall k | 0 <= k < |qs|
      ensures j <= qs[k].number
    {
      if k >= |head| {
        assert qs[k] == rest[k - |head|];
      }
    }
  }

  /** Questions come out in strictly increasing field-number order. */
  lemma {:induction false} QuestionsFromIncreasing(form: AdminForm, s: int, j: int)
    ensures IncreasingFrom(QuestionsFrom(form, s, j), j)
    decreases |QuestionKeysFrom(form, s, j)|
  {
    if QuestionField(s, j) in form {
      QuestionKeysShrink(form, s, j);
      QuestionsFromIncreasing(form, s, j + 1);
      var text := Strip(form[QuestionField(s, j)]);
      var head := if text == [] then [] else [DraftQuestion(j, text)];
      PrependQuestion(head, QuestionsFrom(form, s, j + 1), j);
    }
  }

  /** Keeps the sections whose title strips to something, with the title stripped. */
  function Tidy(sections: seq<DraftSection>): seq<DraftSection> {
    if sections == [] then []
    else
      var s := sections[0];
      (if Strip(s.title) == [] then [] else [s.(title := Strip(s.title))]) + Tidy(sections[1..])
  }

  /** Creating from a form gives the sections editing with the same form would give,
      minus the ones with a blank title and with titles stripped. */
  lemma {:induction false} CreateIsTidiedUpdate(form: AdminForm, i: int)
    ensures CreatedSections(form, i) == Tidy(UpdatedSections(form, i))
    decreases |TitleKeysFrom(form, i)|
  {
    if SectionTitleField(i) in form {
      TitleKeysShrink(form, i);
      CreateIsTidiedUpdate(form, i + 1);
      var u := UpdatedSections(form, i);
      assert u[1..] == UpdatedSections(form, i + 1);
    }
  }

  /** A created survey has a non-blank title, at least one question, and sections
      in strictly increasing number order, each with a non-blank stripped title. */
  lemma CreatedSurveySpec(form: AdminForm)
    ensures CreateManual(form).Created? <==>
      TitleField in form && Strip(form[TitleField]) != [] && QuestionCount(CreatedSections(form, 1)) > 0
    ensures CreateManual(form).Created? ==>
      var d := CreateManual(form).survey;
      d.title == form[TitleField] && NumbersIncrease(d.sections) && TitledFrom(d.sections, 1)
  {
    if CreateManual(form).Created? {
      CreatedSectionsShape(form, 1);
    }
  }

  ghost predicate NumbersIncrease(ss: seq<DraftSection>) {
    forall a, b :: 0 <= a < b < |ss| ==> ss[a].number < ss[b].number
  }

  /** Every section is numbered `i` or more and has a non-blank stripped title. */
  ghost predicate TitledFrom(ss: seq<DraftSection>, i: int) {
    forall k :: 0 <= k < |ss| ==> i <= ss[k].number && ss[k].title != [] && Stripped(ss[k].title)
  }

  lemma PrependSection(head: seq<DraftSection>, rest: seq<DraftSection>, i: int)
    requires |head| <= 1 && (head != [] ==> head[0].number == i && head[0].title != [] && Stripped(head[0].title))
    requires NumbersIncrease(rest) && TitledFrom(rest, i + 1)
    ensures NumbersIncrease(head + rest) && TitledFrom(head + rest, i)
  {
    var ss := head + rest;
    forall a, b | 0 <= a < b < |ss|
      ensures ss[a].number < ss[b].number
    {
      assert ss[b] == rest[b - |head|];
      if a >= |head| {
        assert ss[a] == rest[a - |head|];
      }
    }
    forall k | 0 <= k < |ss|
      ensures i <= ss[k].number && ss[k].title != [] && Stripped(ss[k].title)
    {
      if k >= |head| {
        assert ss[k] == rest[k - |head|];
      }
    }
  }

  lemma {:induction false} CreatedSectionsShape(form: AdminForm, i: int)
    ensures NumbersIncrease(CreatedSections(form, i)) && TitledFrom(CreatedSections(form, i), i)
    decreases |TitleKeysFrom(form, i)|
  {
    if SectionTitleField(i) in form {
      TitleKeysShrink(form, i);
      CreatedSectionsShape(form, i + 1);
      var title := Strip(form[SectionTitleField(i)]);
      StripSpec(form[SectionTitleField(i)]);
      var head := if title == [] then [] else [DraftSection(i, title, Get(form, SectionDescriptionField(i), ""), QuestionsFrom(form, i, 1))];
      PrependSection(head, CreatedSections(form, i + 1), i);
    }
  }

  /** `sum(1 for stat in all_statistics if stat['meets_threshold'])`. */
  function PassedCount(stats: seq<QuestionStats>): nat {
    if stats == [] then 0 else (if stats[0].meetsThreshold then 1 else 0) + PassedCount(stats[1..])
  }

  function FailedCount(stats: seq<QuestionStats>): nat {
    if stats == [] then 0 else (if stats[0].meetsThreshold then 0 else 1) + FailedCount(stats[1..])
  }

  /** Every question is counted once, as passed or as failed. */
  lemma {:induction false} PassedPlusFailed(stats: seq<QuestionStats>)
    ensures PassedCount(stats) + FailedCount(stats) == |stats|
  {
    if stats != [] {
      PassedPlusFailed(stats[1..]);
    }
  }

  /** The export's no-percentage, in tenths: the same denominator as the
      yes-percentage, zero when nobody answered Yes or No. */
  function NoTenths(s: QuestionStats): nat {
    if s.yesCount + s.noCount > 0 then PercentTenths(s.noCount, s.yesCount + s.noCount) else 0
  }

  lemma DivModUnique(d: int, w: int, q: int, r: int)
    requires 0 < w && d == q * w + r && 0 <= r < w
    ensures d / w == q && d % w == r
  {
    var q0, r0 := d / w, d % w;
    assert (q - q0) * w == r0 - r;
    if q0 < q {
      MulLe(1, q - q0, w);
      assert false;
    }
    if q < q0 {
      MulLe(1, q0 - q, w);
      assert false;
    }
  }

  /** The two shares of a whole, scaled by 1000, as quotient and remainder. */
  lemma OtherShare(part: nat, whole: nat, q: nat, r: nat)
    requires part <= whole && 0 <= r < whole && 1000 * part == q * whole + r
    ensures q <= 1000
    ensures r == 0 ==> 1000 * (whole - part) == (1000 - q) * whole
    ensures r > 0 ==> q < 1000 && 1000 * (whole - part) == (999 - q) * whole + (whole - r)
  {
    MulLe(part, whole, 1000);
    if q > 1000 {
      MulLe(1001, q, whole);
    }
  }

  /** Rounding the two shares of one whole, whose remainders add up to the divisor, gives quotients summing to 1000. */
  lemma RoundComplement(q: nat, r: nat, w: nat)
    requires 0 < r < w && q <= 999
    ensures RoundHalfEven(q, r, w) + RoundHalfEven(999 - q, w - r, w) == 1000
  {
    assert (999 - q) % 2 == 0 <==> q % 2 == 1;
  }

  /** Rounding half to even on both shares of the same whole gives shares summing
      to exactly 100.0%. */
  lemma ComplementTenths(part: nat, whole: nat)
    requires part <= whole && 0 < whole
    ensures PercentTenths(part, whole) + PercentTenths(whole - part, whole) == 1000
  {
    var q, r := (1000 * part) / whole, (1000 * part) % whole;
    OtherShare(part, whole, q, r);
    if r == 0 {
      DivModUnique(1000 * (whole - part), whole, 1000 - q, 0);
    } else {
      DivModUnique(1000 * (whole - part), whole, 999 - q, whole - r);
      RoundComplement(q, r, whole);
    }
  }

  /** Whenever somebody answered Yes or No, the yes- and no-percentages add up to 100.0%. */
  lemma YesPlusNo(q: Question, answers: seq<Answer>)
    ensures var s := StatsOf(q, answers);
      s.yesCount + s.noCount > 0 ==> s.yesPercentage + NoTenths(s) == 1000
  {
    var s := StatsOf(q, answers);
    if s.yesCount + s.noCount > 0 {
      ComplementTenths(s.yesCount, s.yesCount + s.noCount);
    }
  }

  /** The comment list of the exports: each elaboration that strips to something, stripped. */
  function Comments(answers: seq<Answer>): seq<string> {
    if answers == [] then []
    else
      var e := answers[0].elaboration;
      (if e.Some? && e.value != [] && Strip(e.value) != [] then [Strip(e.value)] else []) + Comments(answers[1..])
  }

  /** The spreadsheet's comments cell. */
  function CommentsText(comments: seq<string>): string {
    if comments == [] then [] else Join(comments, " | ")
  }

  /** Comments keep the answers' order and drop nothing but blank elaborations: a
      string is a comment exactly when some answer's elaboration strips to it and
      it is not empty. */
  lemma {:induction false} CommentsSpec(answers: seq<Answer>)
    ensures |Comments(answers)| <= |answers|
    ensures forall c :: c in Comments(answers) <==>
      exists a :: a in answers && a.elaboration.Some? && c == Strip(a.elaboration.value) && c != []
    ensures forall c :: c in Comments(answers) ==> Stripped(c)
  {
    if answers != [] {
      CommentsSpec(answers[1..]);
      assert answers == [answers[0]] + answers[1..];
      var e := answers[0].elaboration;
      if e.Some? {
        StripSpec(e.value);
        if e.value == [] {
          StripAllSpace(e.value);
        }
      }
      forall c | c in Comments(answers)
        ensures exists a :: a in answers && a.elaboration.Some? && c == Strip(a.elaboration.value) && c != []
      {
        if c !in Comments(answers[1..]) {
          assert answers[0] in answers;
        }
      }
    }
  }

  lemma {:induction false} CommentsAppend(a: seq<Answer>, b: seq<Answer>)
    ensures Comments(a + b) == Comments(a) + Comments(b)
  {
    if a == [] {
      assert a + b == b;
    } else {
      var e := a[0].elaboration;
      var head := if e.Some? && e.value != [] && Strip(e.value) != [] then [Strip(e.value)] else [];
      assert (a + b)[0] == a[0];
      assert (a + b)[1..] == a[1..] + b;
      CommentsAppend(a[1..], b);
      assert Comments(a + b) == head + (Comments(a[1..]) + Comments(b));
      AppendAssoc(head, Comments(a[1..]), Comments(b));
    }
  }

  /** The comments cell holds every comment and one three-character separator between two. */
  lemma CommentsTextLength(comments: seq<string>)
    ensures |CommentsText(comments)| == if comments == [] then 0 else TotalLength(comments) + 3 * (|comments| - 1)
  {
    if comments != [] {
      JoinLength(comments, " | ");
    }
  }

  /** One question of the PDF report. */
  datatype ReportEntry = ReportEntry(number: int, text: string, total: nat, yesPct: nat, noPct: nat, abstain: nat, comments: seq<string>)

  function EntryOf(s: QuestionStats, answers: seq<Answer>): ReportEntry {
    ReportEntry(s.questionNumber, s.questionText, s.totalResponses, s.yesPercentage, NoTenths(s), s.abstainCount, Comments(answers))
  }

  /** The entries of the questions that pass (`passing`) or do not, in question order. */
  function Entries(qs: seq<Question>, table: seq<Answer>, passing: bool): seq<ReportEntry> {
    if qs == [] then []
    else
      var q := qs[|qs| - 1];
      var s := StatsOf(q, AnswersFor(table, q.id));
      Entries(qs[..|qs| - 1], table, passing) + (if s.meetsThreshold == passing then [EntryOf(s, AnswersFor(table, q.id))] else [])
  }

  lemma EntriesStep(qs: seq<Question>, i: nat, table: seq<Answer>, passing: bool)
    requires i < |qs|
    ensures var s := StatsOf(qs[i], AnswersFor(table, qs[i].id));
      Entries(qs[..i + 1], table, passing)
      == Entries(qs[..i], table, passing) + (if s.meetsThreshold == passing then [EntryOf(s, AnswersFor(table, qs[i].id))] else [])
  {
    assert qs[..i + 1][..i] == qs[..i];
  }

  /** The statistics list the results page receives from `get_all_statistics` is
      the one the reports count and partition. */
  lemma ResultsPageStatistics(survey: Survey, table: seq<Answer>, stats: seq<QuestionStats>)
    requires |stats| == |AllQuestions(survey)|
    requires forall i :: 0 <= i < |stats| ==>
      stats[i] == StatsOf(AllQuestions(survey)[i], AnswersFor(table, AllQuestions(survey)[i].id))
    ensures stats == StatsList(AllQuestions(survey), table)
  {
  }

  /** The PDF export's loop: each question's entry goes to the failed or passed list. */
  method PartitionReport(qs: seq<Question>, table: seq<Answer>) returns (failed: seq<ReportEntry>, passed: seq<ReportEntry>)
    ensures failed == Entries(qs, table, false) && passed == Entries(qs, table, true)
  {
    failed, passed := [], [];
    for i := 0 to |qs|
      invariant failed == Entries(qs[..i], table, false) && passed == Entries(qs[..i], table, true)
    {
      var answers := AnswersFor(table, qs[i].id);
      var stats := CalculateStatistics(qs[i], answers);
      var noPct := if stats.yesCount + stats.noCount > 0 then PercentTenths(stats.noCount, stats.yesCount + stats.noCount) else 0;
      var entry := ReportEntry(stats.questionNumber, stats.questionText, stats.totalResponses, stats.yesPercentage,
                               noPct, stats.abstainCount, Comments(answers));
      assert entry == EntryOf(stats, answers);
      EntriesStep(qs, i, table, true);
      EntriesStep(qs, i, table, false);
      if stats.meetsThreshold {
        passed := passed + [entry];
      } else {
        failed := failed + [entry];
      }
    }
    assert qs[..|qs|] == qs;
  }

  /** The report's two lists together hold one entry per question, and their lengths
      are the passed and failed counts of the results page over the same questions. */
  lemma {:induction false} PartitionCounts(qs: seq<Question>, table: seq<Answer>)
    ensures |Entries(qs, table, true)| == PassedCount(StatsList(qs, table))
    ensures |Entries(qs, table, false)| == FailedCount(StatsList(qs, table))
    ensures |Entries(qs, table, true)| + |Entries(qs, table, false)| == |qs|
  {
    if qs != [] {
      var init := qs[..|qs| - 1];
      PartitionCounts(init, table);
      PassedAppend(StatsList(init, table), [StatsOf(qs[|qs| - 1], AnswersFor(table, qs[|qs| - 1].id))]);
    }
  }

  lemma {:induction false} PassedAppend(a: seq<QuestionStats>, b: seq<QuestionStats>)
    ensures PassedCount(a + b) == PassedCount(a) + PassedCount(b)
    ensures FailedCount(a + b) == FailedCount(a) + FailedCount(b)
  {
    if a == [] {
      assert a + b == b;
    } else {
      assert (a + b)[1..] == a[1..] + b;
      PassedAppend(a[1..], b);
    }
  }

  /** The entry question `q` puts on the passed (`passing`) or failed list, if any. */
  function EntryFor(q: Question, table: seq<Answer>, passing: bool): Option<ReportEntry> {
    var answers := AnswersFor(table, q.id);
    if StatsOf(q, answers).meetsThreshold == passing then Some(EntryOf(StatsOf(q, answers), answers)) else None
  }

  /** The last question's entry, if it has one for this list, closes the list. */
  lemma EntriesSnoc(qs: seq<Question>, table: seq<Answer>, passing: bool)
    requires qs != []
    ensures var e := EntryFor(qs[|qs| - 1], table, passing);
      Entries(qs, table, passing) == Entries(qs[..|qs| - 1], table, passing) + (if e.Some? then [e.value] else [])
  {
  }

  /** Entries keep question order: the entries of two question lists are the two
      entry lists one after the other. */
  lemma {:induction false} EntriesAppend(a: seq<Question>, b: seq<Question>, table: seq<Answer>, passing: bool)
    ensures Entries(a + b, table, passing) == Entries(a, table, passing) + Entries(b, table, passing)
  {
    if b == [] {
      assert a + b == a;
    } else {
      var init, last := b[..|b| - 1], b[|b| - 1];
      var e := EntryFor(last, table, passing);
      var tail := if e.Some? then [e.value] else [];
      EntriesAppend(a, init, table, passing);
      assert (a + b)[..|a + b| - 1] == a + init;
      assert (a + b)[|a + b| - 1] == last;
      EntriesSnoc(a + b, table, passing);
      EntriesSnoc(b, table, passing);
      AppendAssoc(Entries(a, table, passing), Entries(init, table, passing), tail);
    }
  }

  lemma EntriesLast(qs: seq<Question>, table: seq<Answer>, passing: bool, e: ReportEntry)
    requires qs != []
    ensures e in Entries(qs, table, passing) <==>
      e in Entries(qs[..|qs| - 1], table, passing) || EntryFor(qs[|qs| - 1], table, passing) == Some(e)
  {
  }

  lemma {:induction false} EntryListed(qs: seq<Question>, table: seq<Answer>, passing: bool, k: nat)
    requires k < |qs| && EntryFor(qs[k], table, passing).Some?
    ensures EntryFor(qs[k], table, passing).value in Entries(qs, table, passing)
  {
    var e := EntryFor(qs[k], table, passing).value;
    EntriesLast(qs, table, passing, e);
    if k < |qs| - 1 {
      var init := qs[..|qs| - 1];
      assert init[k] == qs[k];
      EntryListed(init, table, passing, k);
    }
  }

  lemma {:induction false} EntrySource(qs: seq<Question>, table: seq<Answer>, passing: bool, e: ReportEntry)
    requires e in Entries(qs, table, passing)
    ensures exists q :: q in qs && EntryFor(q, table, passing) == Some(e)
  {
    var init, last := qs[..|qs| - 1], qs[|qs| - 1];
    EntriesLast(qs, table, passing, e);
    if e in Entries(init, table, passing) {
      EntrySource(init, table, passing, e);
      var q :| q in init && EntryFor(q, table, passing) == Some(e);
      assert q in qs;
    } else {
      assert last in qs;
    }
  }

  /** An entry is in the passed (or failed) list exactly when it is the entry of a
      question whose statistics pass (or fail). */
  lemma EntriesMembers(qs: seq<Question>, table: seq<Answer>, passing: bool, e: ReportEntry)
    ensures e in Entries(qs, table, passing) <==> exists q :: q in qs && EntryFor(q, table, passing) == Some(e)
  {
    if e in Entries(qs, table, passing) {
      EntrySource(qs, table, passing, e);
    }
    if exists q :: q in qs && EntryFor(q, table, passing) == Some(e) {
      var q :| q in qs && EntryFor(q, table, passing) == Some(e);
      var k :| 0 <= k < |qs| && qs[k] == q;
      EntryListed(qs, table, passing, k);
    }
  }

  /** One row of the spreadsheet export. */
  datatype SheetRow = SheetRow(number: int, sectionTitle: string, text: string, total: nat, yesPct: nat, noPct: nat, abstain: nat, comments: string)

  function RowOf(sectionTitle: string, s: QuestionStats, answers: seq<Answer>): SheetRow {
    SheetRow(s.questionNumber, sectionTitle, s.questionText, s.totalResponses, s.yesPercentage, NoTenths(s), s.abstainCount,
             CommentsText(Comments(answers)))
  }

  /** The row of the question in `slot`, under the title of the slot's section. */
  function SlotRow(sections: seq<Section>, slot: Slot, table: seq<Answer>): SheetRow {
    var answers := AnswersFor(table, slot.question.id);
    RowOf(if slot.block < |sections| then sections[slot.block].title else [], StatsOf(slot.question, answers), answers)
  }

  /** The spreadsheet export's data rows: one per question in canonical order, with
      the title of the question's own section. */
  method ExportRows(survey: Survey, table: seq<Answer>) returns (rows: seq<SheetRow>)
    ensures var sections := OrderedSections(survey);
      var l := Layout(sections, 0);
      && |rows| == |l|
      && forall i :: 0 <= i < |l| ==>
           && l[i].block < |sections| && l[i].question in sections[l[i].block].questions
           && rows[i] == SlotRow(sections, l[i], table)
  {
    var sections := OrderedSections(survey);
    var l := Layout(sections, 0);
    LayoutBounds(sections, 0);
    rows := RowsOfSlots(sections, l, table);
  }

  method RowsOfSlots(sections: seq<Section>, slots: seq<Slot>, table: seq<Answer>) returns (rows: seq<SheetRow>)
    requires forall k :: 0 <= k < |slots| ==> slots[k].block < |sections|
    ensures |rows| == |slots|
    ensures forall k :: 0 <= k < |slots| ==> rows[k] == SlotRow(sections, slots[k], table)
  {
    rows := [];
    for i := 0 to |slots|
      invariant |rows| == i
      invariant forall k :: 0 <= k < i ==> rows[k] == SlotRow(sections, slots[k], table)
    {
      var q := slots[i].question;
      var answers := AnswersFor(table, q.id);
      var stats := CalculateStatistics(q, answers);
      rows := rows + [RowOf(sections[slots[i].block].title, stats, answers)];
    }
  }

  /** `str.replace('&', '&amp;').replace('<', '&lt;').replace('>', '&gt;')`. */
  function Escape(s: string): string {
    ReplaceAll(ReplaceAll(ReplaceAll(s, '&', "&amp;"), '<', "&lt;"), '>', "&gt;")
  }

  function EscapeChar(c: char): string {
    if c == '&' then "&amp;" else if c == '<' then "&lt;" else if c == '>' then "&gt;" else [c]
  }

  /** Each character escaped on its own. */
  function EscapeEach(s: string): string {
    if s == [] then [] else EscapeChar(s[0]) + EscapeEach(s[1..])
  }

  /** Decodes the three entities the escape produces, left to right. */
  function Unescape(s: string): string {
    if s == [] then []
    else if |s| >= 5 && s[0] == '&' && s[1] == 'a' && s[2] == 'm' && s[3] == 'p' && s[4] == ';' then "&" + Unescape(s[5..])
    else if |s| >= 4 && s[0] == '&' && s[1] == 'l' && s[2] == 't' && s[3] == ';' then "<" + Unescape(s[4..])
    else if |s| >= 4 && s[0] == '&' && s[1] == 'g' && s[2] == 't' && s[3] == ';' then ">" + Unescape(s[4..])
    else [s[0]] + Unescape(s[1..])
  }

  lemma {:induction false} ReplaceAllAbsent(s: string, c: char, r: string)
    requires c !in s
    ensures ReplaceAll(s, c, r) == s
  {
    if s != [] {
      assert s[0] in s;
      ReplaceAllAbsent(s[1..], c, r);
      assert s == [s[0]] + s[1..];
    }
  }

  lemma ReplaceAllSingle(c: char, d: char, r: string)
    ensures ReplaceAll([c], d, r) == if c == d then r else [c]
  {
    assert [c][1..] == [];
  }

  lemma EscapeOne(c: char)
    ensures Escape([c]) == EscapeChar(c)
  {
    ReplaceAllSingle(c, '&', "&amp;");
    if c == '&' {
      ReplaceAllAbsent("&amp;", '<', "&lt;");
      ReplaceAllAbsent("&amp;", '>', "&gt;");
    } else {
      ReplaceAllSingle(c, '<', "&lt;");
      if c == '<' {
        ReplaceAllAbsent("&lt;", '>', "&gt;");
      } else {
        ReplaceAllSingle(c, '>', "&gt;");
      }
    }
  }

  /** Replacing `&` first makes the chained replacement escape every character
      exactly once: no entity it produces is escaped again. */
  lemma {:induction false} EscapeIsPerCharacter(s: string)
    ensures Escape(s) == EscapeEach(s)
  {
    if s != [] {
      var c, rest := s[0], s[1..];
      assert s == [c] + rest;
      var a := ReplaceAll(s, '&', "&amp;");
      ReplaceAllAppend([c], rest, '&', "&amp;");
      var a1, a2 := ReplaceAll([c], '&', "&amp;"), ReplaceAll(rest, '&', "&amp;");
      ReplaceAllAppend(a1, a2, '<', "&lt;");
      var b1, b2 := ReplaceAll(a1, '<', "&lt;"), ReplaceAll(a2, '<', "&lt;");
      ReplaceAllAppend(b1, b2, '>', "&gt;");
      EscapeOne(c);
      EscapeIsPerCharacter(rest);
    }
  }

  lemma UnescapeAfter(c: char, t: string)
    ensures Unescape(EscapeChar(c) + t) == [c] + Unescape(t)
  {
    var s := EscapeChar(c) + t;
    if c == '&' {
      assert s[5..] == t;
    } else if c == '<' {
      assert s[4..] == t;
    } else if c == '>' {
      assert s[4..] == t;
    } else {
      assert s[0] == c && s[1..] == t;
    }
  }

  /** Escaping loses nothing: decoding the escaped comment gives it back. */
  lemma {:induction false} UnescapeEscape(s: string)
    ensures Unescape(Escape(s)) == s
  {
    EscapeIsPerCharacter(s);
    UnescapeEachInverse(s);
  }

  lemma {:induction false} UnescapeEachInverse(s: string)
    ensures Unescape(EscapeEach(s)) == s
  {
    if s != [] {
      UnescapeEachInverse(s[1..]);
      UnescapeAfter(s[0], EscapeEach(s[1..]));
      assert s == [s[0]] + s[1..];
    }
  }

  /** An escaped comment contains no angle bracket, so it cannot open markup. */
  lemma {:induction false} EscapedHasNoBrackets(s: string)
    ensures '<' !in Escape(s) && '>' !in Escape(s)
  {
    EscapeIsPerCharacter(s);
    EachHasNoBrackets(s);
  }

  lemma {:induction false} EachHasNoBrackets(s: string)
    ensures '<' !in EscapeEach(s) && '>' !in EscapeEach(s)
  {
    if s != [] {
      EachHasNoBrackets(s[1..]);
    }
  }

  /** `title.replace(' ', '_').replace('/', '_')`. */
  function SafeTitle(title: string): string {
    ReplaceAll(ReplaceAll(title, ' ', "_"), '/', "_")
  }

  lemma {:induction false} ReplaceCharPointwise(s: string, c: char, d: char)
    ensures |ReplaceAll(s, c, [d])| == |s|
    ensures forall i :: 0 <= i < |s| ==> ReplaceAll(s, c, [d])[i] == if s[i] == c then d else s[i]
  {
    if s != [] {
      ReplaceCharPointwise(s[1..], c, d);
    }
  }

  /** The file-name stem keeps the title's length, turns each space and slash into
      an underscore and leaves every other character alone. */
  lemma SafeTitleSpec(title: string)
    ensures |SafeTitle(title)| == |title|
    ensures forall i :: 0 <= i < |title| ==>
      SafeTitle(title)[i] == if title[i] == ' ' || title[i] == '/' then '_' else title[i]
    ensures ' ' !in SafeTitle(title) && '/' !in SafeTitle(title)
  {
    ReplaceCharPointwise(title, ' ', '_');
    ReplaceCharPointwise(ReplaceAll(title, ' ', "_"), '/', '_');
  }

  /** Switching a survey's availability flips its flag and nothing else; doing it twice restores it. */
  function Toggle(s: Survey): Survey {
    s.(isActive := !s.isActive)
  }

  lemma ToggleSpec(s: Survey)
    ensures Toggle(s).isActive == !s.isActive
    ensures Toggle(s).(isActive := s.isActive) == s
    ensures Toggle(Toggle(s)) == s
  {
  }
}
