/** What the section workflow guarantees: a section save leaves exactly one row
    per answered question and touches nothing else, saving twice is the same as
    saving once, the route guards change nothing, navigation and submission do
    what their buttons say, and a saved resume link leads back to the same
    response. */
module WorkflowProperties {
  import opened Schema
  import opened Text
  import opened Ordering
  import opened Aggregate
  import opened Workflow

  /** How many rows of the table belong to this response and this question. */
  function CountFor(table: seq<Answer>, responseId: nat, questionId: nat): nat {
    if table == [] then 0
    else (if table[0].responseId == responseId && table[0].questionId == questionId then 1 else 0)
         + CountFor(table[1..], responseId, questionId)
  }

  ghost predicate DistinctIds(qs: seq<Question>) {
    forall i, j :: 0 <= i < j < |qs| ==> qs[i].id != qs[j].id
  }

  lemma {:induction false} CountForAppend(a: seq<Answer>, b: seq<Answer>, responseId: nat, questionId: nat)
    ensures CountFor(a + b, responseId, questionId) == CountFor(a, responseId, questionId) + CountFor(b, responseId, questionId)
  {
    if a == [] {
      assert a + b == b;
    } else {
      CountForAppend(a[1..], b, responseId, questionId);
      assert (a + b)[1..] == a[1..] + b;
    }
  }

  lemma {:induction false} CountZero(table: seq<Answer>, responseId: nat, questionId: nat)
    requires forall a :: a in table ==> !(a.responseId == responseId && a.questionId == questionId)
    ensures CountFor(table, responseId, questionId) == 0
  {
    if table != [] {
      assert table[0] in table;
      CountZero(table[1..], responseId, questionId);
    }
  }

  /** Every inserted row belongs to the response, to one of the section's questions,
      and carries that question's submitted choice and stripped elaboration. */
  lemma {:induction false} SectionRowsShape(responseId: nat, qs: seq<Question>, form: Form)
    ensures forall a :: a in SectionRows(responseId, qs, form) ==>
      && a.responseId == responseId && a.questionId in Ids(qs)
      && Chosen(form, a.questionId) && a.choice == form.choices[a.questionId]
      && a.elaboration == ElaborationOf(form, a.questionId)
  {
    if qs != [] {
      var init, last := qs[..|qs| - 1], qs[|qs| - 1];
      SectionRowsShape(responseId, init, form);
      forall q | q in init
        ensures q in qs
      {
        var k :| 0 <= k < |init| && init[k] == q;
        assert qs[k] == q;
      }
    }
  }

  lemma {:induction false} IdsSnoc(qs: seq<Question>)
    requires qs != []
    ensures Ids(qs) == Ids(qs[..|qs| - 1]) + {qs[|qs| - 1].id}
  {
    assert qs == qs[..|qs| - 1] + [qs[|qs| - 1]];
  }

  /** Dropping the last question keeps ids distinct, and the last id is not among the others. */
  lemma {:induction false} DistinctInit(qs: seq<Question>)
    requires qs != [] && DistinctIds(qs)
    ensures DistinctIds(qs[..|qs| - 1]) && qs[|qs| - 1].id !in Ids(qs[..|qs| - 1])
  {
    var init := qs[..|qs| - 1];
    forall i, j | 0 <= i < j < |init|
      ensures init[i].id != init[j].id
    {
      assert init[i] == qs[i] && init[j] == qs[j];
    }
    forall q | q in init
      ensures q.id != qs[|qs| - 1].id
    {
      var k :| 0 <= k < |init| && init[k] == q;
      assert qs[k] == q;
    }
  }

  lemma {:induction false} CountOne(row: seq<Answer>, responseId: nat, questionId: nat)
    requires |row| == 1
    ensures CountFor(row, responseId, questionId) == if row[0].responseId == responseId && row[0].questionId == questionId then 1 else 0
  {
    assert row[1..] == [];
  }

  /** A chosen question contributes one row, for this response and this question. */
  lemma {:induction false} RowChosen(responseId: nat, q: Question, form: Form)
    requires Chosen(form, q.id)
    ensures |RowFor(responseId, q, form)| == 1
    ensures RowFor(responseId, q, form)[0].responseId == responseId && RowFor(responseId, q, form)[0].questionId == q.id
  {
  }

  lemma {:induction false} CountRowSkipped(responseId: nat, q: Question, form: Form, questionId: nat)
    requires !Chosen(form, q.id)
    ensures CountFor(RowFor(responseId, q, form), responseId, questionId) == 0
  {
  }

  lemma {:induction false} SectionRowsCount(responseId: nat, qs: seq<Question>, form: Form, questionId: nat)
    requires DistinctIds(qs)
    ensures CountFor(SectionRows(responseId, qs, form), responseId, questionId)
            == if questionId in Ids(qs) && Chosen(form, questionId) then 1 else 0
  {
    if qs != [] {
      var init, last := qs[..|qs| - 1], qs[|qs| - 1];
      DistinctInit(qs);
      SectionRowsCount(responseId, init, form, questionId);
      CountForAppend(SectionRows(responseId, init, form), RowFor(responseId, last, form), responseId, questionId);
      if Chosen(form, last.id) {
        RowChosen(responseId, last, form);
        CountOne(RowFor(responseId, last, form), responseId, questionId);
      } else {
        CountRowSkipped(responseId, last, form, questionId);
      }
      IdsSnoc(qs);
    }
  }

  /** After a section save, each of the section's questions (their ids distinct) has
      exactly one row for the response when a choice was submitted and none
      otherwise, and that row holds the submitted choice and elaboration. */
  lemma OneRowPerAnsweredQuestion(table: seq<Answer>, responseId: nat, section: Section, form: Form)
    requires DistinctIds(section.questions)
    ensures forall q :: q in section.questions ==>
      CountFor(ReplaceSection(table, responseId, section, form), responseId, q.id) == if Chosen(form, q.id) then 1 else 0
    ensures forall a :: a in ReplaceSection(table, responseId, section, form) && Replaced(a, responseId, QuestionIds(section)) ==>
      && Chosen(form, a.questionId) && a.choice == form.choices[a.questionId]
      && a.elaboration == ElaborationOf(form, a.questionId)
  {
    var ids := QuestionIds(section);
    var kept := Unaffected(table, responseId, ids);
    var rows := SectionRows(responseId, section.questions, form);
    SectionRowsShape(responseId, section.questions, form);
    UnaffectedMembers(table, responseId, ids);
    forall q | q in section.questions
      ensures CountFor(kept + rows, responseId, q.id) == if Chosen(form, q.id) then 1 else 0
    {
      CountForAppend(kept, rows, responseId, q.id);
      CountZero(kept, responseId, q.id);
      SectionRowsCount(responseId, section.questions, form, q.id);
    }
  }

  /** The delete keeps exactly the rows it does not replace. */
  lemma {:induction false} UnaffectedMembers(table: seq<Answer>, responseId: nat, ids: set<nat>)
    ensures forall a :: a in Unaffected(table, responseId, ids) <==> a in table && !Replaced(a, responseId, ids)
  {
    if table != [] {
      UnaffectedMembers(table[1..], responseId, ids);
      assert table == [table[0]] + table[1..];
    }
  }

  lemma {:induction false} UnaffectedAppend(a: seq<Answer>, b: seq<Answer>, responseId: nat, ids: set<nat>)
    ensures Unaffected(a + b, responseId, ids) == Unaffected(a, responseId, ids) + Unaffected(b, responseId, ids)
  {
    if a == [] {
      assert a + b == b;
    } else {
      var head := if Replaced(a[0], responseId, ids) then [] else [a[0]];
      var ua, ub := Unaffected(a[1..], responseId, ids), Unaffected(b, responseId, ids);
      assert (a + b)[0] == a[0] && (a + b)[1..] == a[1..] + b;
      assert Unaffected(a + b, responseId, ids) == head + Unaffected(a[1..] + b, responseId, ids);
      UnaffectedAppend(a[1..], b, responseId, ids);
      AppendAssoc(head, ua, ub);
    }
  }

  lemma {:induction false} UnaffectedTwice(table: seq<Answer>, responseId: nat, ids: set<nat>)
    ensures Unaffected(Unaffected(table, responseId, ids), responseId, ids) == Unaffected(table, responseId, ids)
  {
    if table != [] {
      var head := if Replaced(table[0], responseId, ids) then [] else [table[0]];
      UnaffectedTwice(table[1..], responseId, ids);
      UnaffectedAppend(head, Unaffected(table[1..], responseId, ids), responseId, ids);
    }
  }

  lemma {:induction false} UnaffectedOfReplaced(table: seq<Answer>, responseId: nat, ids: set<nat>)
    requires forall a :: a in table ==> Replaced(a, responseId, ids)
    ensures Unaffected(table, responseId, ids) == []
  {
    if table != [] {
      assert table[0] in table;
      UnaffectedOfReplaced(table[1..], responseId, ids);
    }
  }

  /** A section save leaves every row it does not replace where it was: rows of
      other responses and of other questions, in their original order. */
  lemma OthersUntouched(table: seq<Answer>, responseId: nat, section: Section, form: Form)
    ensures Unaffected(ReplaceSection(table, responseId, section, form), responseId, QuestionIds(section))
         == Unaffected(table, responseId, QuestionIds(section))
  {
    var ids := QuestionIds(section);
    var rows := SectionRows(responseId, section.questions, form);
    SectionRowsShape(responseId, section.questions, form);
    UnaffectedAppend(Unaffected(table, responseId, ids), rows, responseId, ids);
    UnaffectedTwice(table, responseId, ids);
    UnaffectedOfReplaced(rows, responseId, ids);
  }

  /** Replacing a section's answers twice with the same form is the same as once. */
  lemma ReplaceIdempotent(table: seq<Answer>, responseId: nat, section: Section, form: Form)
    ensures ReplaceSection(ReplaceSection(table, responseId, section, form), responseId, section, form)
         == ReplaceSection(table, responseId, section, form)
  {
    OthersUntouched(table, responseId, section, form);
  }

  function RawElaboration(form: Form, questionId: nat): string {
    if questionId in form.elaborations then form.elaborations[questionId] else ""
  }

  lemma {:induction false} ElaborationNone(form: Form, questionId: nat)
    ensures ElaborationOf(form, questionId).None? <==> AllSpace(RawElaboration(form, questionId))
  {
    var raw := RawElaboration(form, questionId);
    assert ElaborationOf(form, questionId).None? <==> Strip(raw) == [];
    StripEmpty(raw);
  }

  lemma {:induction false} ElaborationSome(form: Form, questionId: nat)
    requires ElaborationOf(form, questionId).Some?
    ensures var e := ElaborationOf(form, questionId).value;
      var raw := RawElaboration(form, questionId);
      e != [] && Stripped(e) && exists i, j :: 0 <= i <= j <= |raw| && e == raw[i..j]
  {
    var raw := RawElaboration(form, questionId);
    assert ElaborationOf(form, questionId).value == Strip(raw);
    StripSpec(raw);
  }

  /** An elaboration is stored stripped; one that is empty or only whitespace is
      stored as none. */
  lemma {:induction false} ElaborationOfSpec(form: Form, questionId: nat)
    ensures var raw := if questionId in form.elaborations then form.elaborations[questionId] else "";
      && (ElaborationOf(form, questionId).None? <==> AllSpace(raw))
      && (ElaborationOf(form, questionId).Some? ==>
            var e := ElaborationOf(form, questionId).value;
            e != [] && Stripped(e) && exists i, j :: 0 <= i <= j <= |raw| && e == raw[i..j])
  {
    ElaborationNone(form, questionId);
    if ElaborationOf(form, questionId).Some? {
      ElaborationSome(form, questionId);
    }
  }

  /** The route's guards: an unknown survey is not found, a closed one sends the
      visitor home, and a section number outside 1..n goes back to the entry page;
      none of them changes anything. */
  lemma RouteGuards(st: AppState, surveyId: nat, sectionNum: int, req: Request, emailSent: bool, newToken: string)
    requires surveyId !in st.surveys || Blocked(st.surveys[surveyId], st.session)
             || sectionNum < 1 || sectionNum > |OrderedSections(st.surveys[surveyId])|
    ensures ShowSectionStep(st, surveyId, sectionNum, req, emailSent, newToken)
         == (st, if surveyId !in st.surveys then NotFound
                 else if Blocked(st.surveys[surveyId], st.session) then RedirectHome
                 else RedirectEntry(surveyId))
  {
  }

  /** Showing a section changes nothing. */
  lemma GetChangesNothing(st: AppState, surveyId: nat, sectionNum: int, emailSent: bool, newToken: string)
    ensures ShowSectionStep(st, surveyId, sectionNum, Get, emailSent, newToken).0 == st
  {
  }

  /** The route reaches a section: the survey exists, is open to this session, and the number is in range. */
  ghost predicate Open(st: AppState, surveyId: nat, sectionNum: int) {
    surveyId in st.surveys && !Blocked(st.surveys[surveyId], st.session)
    && 1 <= sectionNum <= |OrderedSections(st.surveys[surveyId])|
  }

  function CurrentSection(st: AppState, surveyId: nat, sectionNum: int): Section
    requires Open(st, surveyId, sectionNum)
  {
    OrderedSections(st.surveys[surveyId])[sectionNum - 1]
  }

  /** Saving for later with a blank email is refused and changes nothing. */
  lemma BlankEmailRefused(st: AppState, surveyId: nat, sectionNum: int, form: Form, emailSent: bool, newToken: string)
    requires Open(st, surveyId, sectionNum)
    requires form.action == Some(SaveAction) && AllSpace(form.email.GetOr(""))
    ensures var r := ShowSectionStep(st, surveyId, sectionNum, Post(form), emailSent, newToken);
      r.0 == st && r.1.SectionPage? && r.1.saveError && r.1.resumeLink.None?
  {
    StripAllSpace(form.email.GetOr(""));
  }

  lemma SaveForLaterShape(st: AppState, ownerId: nat, surveyId: nat, sectionNum: int, total: nat, current: Section,
                          existing: Option<nat>, form: Form, emailSent: bool, newToken: string)
    requires existing.Some? ==> existing.value < |st.responses|
    requires Strip(form.email.GetOr("")) != []
    ensures var r := SaveForLater(st, ownerId, surveyId, sectionNum, total, current, existing, form, emailSent, newToken);
      var e := Strip(form.email.GetOr(""));
      var rid := if existing.Some? then existing.value else |st.responses|;
      && |r.0.responses| == |st.responses| + (if existing.Some? then 0 else 1)
      && rid < |r.0.responses|
      && r.0.responses[rid].email == Some(e)
      && (existing.None? ==> r.0.responses[rid] == Response(ownerId, Some(e), Some(newToken), false))
      && (forall j :: 0 <= j < |st.responses| && j != rid ==> r.0.responses[j] == st.responses[j])
      && ResumeEmailKey in r.0.session && r.0.session[ResumeEmailKey] == Str(e)
      && (existing.None? ==> SessionToken(r.0.session) == Some(newToken) || newToken == [])
      && r.0.answers == ReplaceSection(st.answers, rid, current, form)
      && r.1 == SectionPage(sectionNum, total, Some(rid), Str(e), false,
                            Some(ResumeLink(surveyId, r.0.responses[rid].resumeToken, sectionNum)),
                            if emailSent then Some(e) else None)
  {
    var e := Strip(form.email.GetOr(""));
    var rid := if existing.Some? then existing.value else |st.responses|;
    var st1 := RecordEmail(st, ownerId, existing, e, newToken);
    var st2 := SaveSection(st1, ownerId, current, Some(rid), form, newToken);
    assert st2 == st1.(answers := ReplaceSection(st.answers, rid, current, form));
    assert SaveForLater(st, ownerId, surveyId, sectionNum, total, current, existing, form, emailSent, newToken).0 == st2;
    if existing.None? {
      assert ResumeTokenKey != ResumeEmailKey;
      assert st2.session[ResumeTokenKey] == Str(newToken);
    }
  }

  /** Saving for later with an email records the stripped email on the response
      (a new one, with the fresh token, when the session has none) and in the
      session, replaces the section's answers, leaves every other response alone,
      and shows the resume link carrying the response's token. */
  lemma SaveForLaterRecords(st: AppState, surveyId: nat, sectionNum: int, form: Form, emailSent: bool, newToken: string)
    requires Open(st, surveyId, sectionNum)
    requires form.action == Some(SaveAction) && Strip(form.email.GetOr("")) != []
    ensures var r := ShowSectionStep(st, surveyId, sectionNum, Post(form), emailSent, newToken);
      var e := Strip(form.email.GetOr(""));
      var existing := CurrentResponse(st);
      var rid := if existing.Some? then existing.value else |st.responses|;
      && |r.0.responses| == |st.responses| + (if existing.Some? then 0 else 1)
      && rid < |r.0.responses|
      && r.0.responses[rid].email == Some(e)
      && (existing.None? ==> r.0.responses[rid] == Response(st.surveys[surveyId].id, Some(e), Some(newToken), false))
      && (forall j :: 0 <= j < |st.responses| && j != rid ==> r.0.responses[j] == st.responses[j])
      && ResumeEmailKey in r.0.session && r.0.session[ResumeEmailKey] == Str(e)
      && (existing.None? ==> SessionToken(r.0.session) == Some(newToken) || newToken == [])
      && r.0.answers == ReplaceSection(st.answers, rid, CurrentSection(st, surveyId, sectionNum), form)
      && r.1 == SectionPage(sectionNum, |OrderedSections(st.surveys[surveyId])|, Some(rid), Str(e), false,
                            Some(ResumeLink(surveyId, r.0.responses[rid].resumeToken, sectionNum)),
                            if emailSent then Some(e) else None)
  {
    var survey := st.surveys[surveyId];
    var total := |OrderedSections(survey)|;
    var current := CurrentSection(st, surveyId, sectionNum);
    assert ShowSectionStep(st, surveyId, sectionNum, Post(form), emailSent, newToken)
        == SaveForLater(st, survey.id, surveyId, sectionNum, total, current, CurrentResponse(st), form, emailSent, newToken);
    SaveForLaterShape(st, survey.id, surveyId, sectionNum, total, current, CurrentResponse(st), form, emailSent, newToken);
  }

  /** `next` and `previous` save the section into the session's response, then move one section on or back. */
  lemma NextAndPrevious(st: AppState, surveyId: nat, sectionNum: int, form: Form, emailSent: bool, newToken: string)
    requires Open(st, surveyId, sectionNum)
    requires form.action == Some(NextAction) || form.action == Some(PreviousAction)
    ensures var r := ShowSectionStep(st, surveyId, sectionNum, Post(form), emailSent, newToken);
      && r.0 == SaveSection(st, st.surveys[surveyId].id, CurrentSection(st, surveyId, sectionNum), CurrentResponse(st), form, newToken)
      && r.1 == RedirectSection(surveyId, if form.action == Some(NextAction) then sectionNum + 1 else sectionNum - 1)
  {
  }

  /** `submit` on a resumed response saves the section, marks that response complete,
      and forgets the resume token and email. */
  lemma SubmitCompletes(st: AppState, surveyId: nat, sectionNum: int, form: Form, emailSent: bool, newToken: string)
    requires Open(st, surveyId, sectionNum)
    requires form.action == Some(SubmitAction) && CurrentResponse(st).Some?
    ensures var r := ShowSectionStep(st, surveyId, sectionNum, Post(form), emailSent, newToken);
      var i := CurrentResponse(st).value;
      && r.1 == RedirectThankYou
      && r.0.responses == st.responses[i := st.responses[i].(isComplete := true)]
      && r.0.answers == ReplaceSection(st.answers, i, CurrentSection(st, surveyId, sectionNum), form)
      && ResumeTokenKey !in r.0.session && ResumeEmailKey !in r.0.session
      && r.0.session == st.session - {ResumeTokenKey, ResumeEmailKey}
  {
  }

  /** `submit` on a fresh session: the section save creates an incomplete response
      that receives the answers, and the submission then appends a second, complete
      response that has no token and no answers. */
  lemma FreshSubmitMakesTwoResponses(st: AppState, surveyId: nat, sectionNum: int, form: Form, emailSent: bool, newToken: string)
    requires Open(st, surveyId, sectionNum)
    requires form.action == Some(SubmitAction) && SessionToken(st.session).None?
    ensures var r := ShowSectionStep(st, surveyId, sectionNum, Post(form), emailSent, newToken);
      var owner := st.surveys[surveyId].id;
      var n := |st.responses|;
      && r.1 == RedirectThankYou
      && r.0.responses == st.responses + [Response(owner, None, Some(newToken), false), Response(owner, None, None, true)]
      && r.0.answers == ReplaceSection(st.answers, n, CurrentSection(st, surveyId, sectionNum), form)
      && (forall a :: a in r.0.answers && a.responseId == n + 1 ==> a in st.answers)
      && ResumeTokenKey !in r.0.session
  {
    var section := CurrentSection(st, surveyId, sectionNum);
    SectionRowsShape(|st.responses|, section.questions, form);
    UnaffectedMembers(st.answers, |st.responses|, QuestionIds(section));
  }

  /** Any other action (or none) saves the section and shows it again. */
  lemma OtherActionRerenders(st: AppState, surveyId: nat, sectionNum: int, form: Form, emailSent: bool, newToken: string)
    requires Open(st, surveyId, sectionNum)
    requires form.action !in {Some(SaveAction), Some(NextAction), Some(PreviousAction), Some(SubmitAction)}
    ensures var r := ShowSectionStep(st, surveyId, sectionNum, Post(form), emailSent, newToken);
      && r.0 == SaveSection(st, st.surveys[surveyId].id, CurrentSection(st, surveyId, sectionNum), CurrentResponse(st), form, newToken)
      && r.1 == SectionPage(sectionNum, |OrderedSections(st.surveys[surveyId])|, CurrentResponse(st), SavedEmail(r.0.session), false, None, None)
  {
  }

  /** No two responses share a resume token. */
  ghost predicate TokensUnique(rs: seq<Response>) {
    forall i, j :: 0 <= i < j < |rs| && rs[i].resumeToken.Some? ==> rs[i].resumeToken != rs[j].resumeToken
  }

  ghost predicate FreshToken(t: string, rs: seq<Response>) {
    forall j :: 0 <= j < |rs| ==> rs[j].resumeToken != Some(t)
  }

  /** With unique tokens, the token lookup finds the one response holding it. */
  lemma FindByTokenUnique(rs: seq<Response>, t: string, i: nat)
    requires TokensUnique(rs) && i < |rs| && rs[i].resumeToken == Some(t)
    ensures FindByToken(rs, t) == Some(i)
  {
    var r := FindByToken(rs, t);
    assert r.Some?;
    assert r.value >= i;
  }

  /** The section route looks a response up by its token alone: a response of
      another survey, or one already complete, still receives the answers when the
      session carries its token. */
  lemma TokenLookupIgnoresSurvey(st: AppState, surveyId: nat, sectionNum: int, form: Form, emailSent: bool, newToken: string, i: nat)
    requires Open(st, surveyId, sectionNum)
    requires TokensUnique(st.responses) && i < |st.responses|
    requires SessionToken(st.session).Some? && st.responses[i].resumeToken == SessionToken(st.session)
    requires form.action == Some(NextAction)
    ensures ShowSectionStep(st, surveyId, sectionNum, Post(form), emailSent, newToken).0.answers
         == ReplaceSection(st.answers, i, CurrentSection(st, surveyId, sectionNum), form)
  {
    FindByTokenUnique(st.responses, SessionToken(st.session).value, i);
  }

  lemma TokensUniqueAppend(rs: seq<Response>, r: Response)
    requires TokensUnique(rs)
    requires r.resumeToken.None? || FreshToken(r.resumeToken.value, rs)
    ensures TokensUnique(rs + [r])
  {
    var s := rs + [r];
    forall i, j | 0 <= i < j < |s| && s[i].resumeToken.Some?
      ensures s[i].resumeToken != s[j].resumeToken
    {
      if j == |rs| {
        assert s[i] == rs[i];
      } else {
        assert s[i] == rs[i] && s[j] == rs[j];
      }
    }
  }

  /** A section route keeps resume tokens unique when the token it may hand out is
      new: tokens are only ever added with fresh values, and edits keep tokens. */
  lemma TokensStayUnique(st: AppState, surveyId: nat, sectionNum: int, req: Request, emailSent: bool, newToken: string)
    requires TokensUnique(st.responses) && FreshToken(newToken, st.responses)
    ensures TokensUnique(ShowSectionStep(st, surveyId, sectionNum, req, emailSent, newToken).0.responses)
  {
    var r := ShowSectionStep(st, surveyId, sectionNum, req, emailSent, newToken);
    if Open(st, surveyId, sectionNum) && req.Post? {
      var owner := st.surveys[surveyId].id;
      var existing := CurrentResponse(st);
      var form := req.form;
      if existing.Some? {
        var i := existing.value;
        assert forall j :: 0 <= j < |r.0.responses| ==> r.0.responses[j].resumeToken == st.responses[j].resumeToken;
      } else if form.action == Some(SaveAction) {
        if Strip(form.email.GetOr("")) != [] {
          TokensUniqueAppend(st.responses, Response(owner, Some(Strip(form.email.GetOr(""))), Some(newToken), false));
        }
      } else if form.action == Some(SubmitAction) {
        var first := Response(owner, None, Some(newToken), false);
        TokensUniqueAppend(st.responses, first);
        TokensUniqueAppend(st.responses + [first], Response(owner, None, None, true));
        assert r.0.responses == st.responses + [first] + [Response(owner, None, None, true)];
      } else {
        TokensUniqueAppend(st.responses, Response(owner, None, Some(newToken), false));
      }
    }
  }

  /** `take_survey` with a token restores the session only from an incomplete
      response of the same survey holding that token (the first such response),
      and otherwise changes nothing; the tables are never changed and the visitor
      goes to the linked section, or section 1. */
  lemma ResumeSpec(st: AppState, surveyId: nat, token: string, section: Option<int>)
    requires surveyId in st.surveys && !Blocked(st.surveys[surveyId], st.session) && token != []
    ensures var r := TakeSurveyStep(st, surveyId, Some(token), section);
      && r.1 == RedirectSection(surveyId, section.GetOr(1))
      && r.0.surveys == st.surveys && r.0.responses == st.responses && r.0.answers == st.answers
      && ((forall j :: 0 <= j < |st.responses| ==> !Resumable(st.responses[j], token, surveyId)) ==> r.0 == st)
      && (forall i :: 0 <= i < |st.responses| && Resumable(st.responses[i], token, surveyId)
                      && (forall j :: 0 <= j < i ==> !Resumable(st.responses[j], token, surveyId)) ==>
            r.0.session == st.session[ResumeTokenKey := Str(token)][ResumeEmailKey := EmailValue(st.responses[i].email)])
  {
    var found := FindResumable(st.responses, token, surveyId);
    forall i | 0 <= i < |st.responses| && Resumable(st.responses[i], token, surveyId)
               && (forall j :: 0 <= j < i ==> !Resumable(st.responses[j], token, surveyId))
      ensures found == Some(i)
    {
      assert found.Some?;
      assert found.value <= i;
    }
  }

  /** The save-for-later round trip: after a fresh session saves section `n` with an
      email and a new token, opening the resume link in any later session of an open
      survey restores the token and email, goes to section `n`, and that section's
      page shows the same response with the saved email. */
  lemma SaveThenResume(st: AppState, surveyId: nat, n: int, form: Form, emailSent: bool, newToken: string,
                       later: map<string, SessionValue>, sent2: bool, token2: string)
    requires Open(st, surveyId, n) && st.surveys[surveyId].id == surveyId && st.surveys[surveyId].isActive
    requires SessionToken(st.session).None?
    requires form.action == Some(SaveAction) && Strip(form.email.GetOr("")) != []
    requires newToken != [] && FreshToken(newToken, st.responses)
    ensures var saved := ShowSectionStep(st, surveyId, n, Post(form), emailSent, newToken);
      var e := Strip(form.email.GetOr(""));
      var rid := |st.responses|;
      var resumed := TakeSurveyStep(saved.0.(session := later), surveyId, Some(newToken), Some(n));
      && saved.1.SectionPage? && saved.1.resumeLink == Some(ResumeLink(surveyId, Some(newToken), n))
      && resumed.1 == RedirectSection(surveyId, n)
      && SessionToken(resumed.0.session) == Some(newToken)
      && ShowSectionStep(resumed.0, surveyId, n, Get, sent2, token2).1
         == SectionPage(n, |OrderedSections(st.surveys[surveyId])|, Some(rid), Str(e), false, None, None)
  {
    var saved := ShowSectionStep(st, surveyId, n, Post(form), emailSent, newToken);
    var e := Strip(form.email.GetOr(""));
    var rid := |st.responses|;
    assert saved.0.responses == st.responses + [Response(surveyId, Some(e), Some(newToken), false)];
    var st3 := saved.0.(session := later);
    var found := FindResumable(st3.responses, newToken, surveyId);
    assert found == Some(rid) by {
      assert found.Some?;
      assert forall j :: 0 <= j < rid ==> st3.responses[j] == st.responses[j];
    }
    var resumed := TakeSurveyStep(st3, surveyId, Some(newToken), Some(n));
    assert resumed.0.session == later[ResumeTokenKey := Str(newToken)][ResumeEmailKey := Str(e)];
    var byToken := FindByToken(resumed.0.responses, newToken);
    assert byToken == Some(rid) by {
      assert byToken.Some?;
      assert forall j :: 0 <= j < rid ==> resumed.0.responses[j] == st.responses[j];
    }
  }

  /** After a resumed response is submitted, its link no longer restores anything:
      with unique tokens the only response holding the token is now complete, so a
      later visit starts from a session without a resume token. */
  lemma SubmittedLinkExpires(st: AppState, surveyId: nat, n: int, form: Form, emailSent: bool, newToken: string,
                             later: map<string, SessionValue>, section: Option<int>)
    requires Open(st, surveyId, n) && TokensUnique(st.responses)
    requires form.action == Some(SubmitAction) && SessionToken(st.session).Some? && CurrentResponse(st).Some?
    requires ResumeTokenKey !in later
    ensures var t := SessionToken(st.session).value;
      var done := ShowSectionStep(st, surveyId, n, Post(form), emailSent, newToken);
      var again := TakeSurveyStep(done.0.(session := later), surveyId, Some(t), section);
      SessionToken(again.0.session).None?
  {
    var t := SessionToken(st.session).value;
    var i := CurrentResponse(st).value;
    var done := ShowSectionStep(st, surveyId, n, Post(form), emailSent, newToken);
    var rs := done.0.responses;
    assert rs == st.responses[i := st.responses[i].(isComplete := true)];
    assert st.responses[i].resumeToken == Some(t);
    forall j | 0 <= j < |rs|
      ensures !Resumable(rs[j], t, surveyId)
    {
      if j != i {
        assert rs[j] == st.responses[j];
      }
    }
    var st3 := done.0.(session := later);
    if surveyId in st3.surveys && !Blocked(st3.surveys[surveyId], st3.session) {
      ResumeSpec(st3, surveyId, t, section);
    }
  }

  /** Saving the same section twice with the same form through `next` leaves the
      tables as the first save left them: one row per answered question, no
      duplicates, even when the first save had to create the response. */
  lemma RepeatedSaveIsIdempotent(st: AppState, surveyId: nat, sectionNum: int, form: Form, sent: bool, newToken: string, token2: string)
    requires Open(st, surveyId, sectionNum) && form.action == Some(NextAction)
    requires TokensUnique(st.responses) && newToken != [] && FreshToken(newToken, st.responses)
    ensures var once := ShowSectionStep(st, surveyId, sectionNum, Post(form), sent, newToken).0;
      var twice := ShowSectionStep(once, surveyId, sectionNum, Post(form), sent, token2).0;
      twice == once
  {
    var section := CurrentSection(st, surveyId, sectionNum);
    var once := ShowSectionStep(st, surveyId, sectionNum, Post(form), sent, newToken).0;
    var existing := CurrentResponse(st);
    var rid := if existing.Some? then existing.value else |st.responses|;
    assert once.answers == ReplaceSection(st.answers, rid, section, form);
    assert CurrentResponse(once) == Some(rid) by {
      if existing.None? {
        TokensUniqueAppend(st.responses, Response(st.surveys[surveyId].id, None, Some(newToken), false));
        FindByTokenUnique(once.responses, newToken, rid);
      }
    }
    ReplaceIdempotent(st.answers, rid, section, form);
  }

  /** Toggling a survey twice restores the whole application state. */
  lemma ToggleTwiceRestores(st: AppState, surveyId: nat)
    ensures ToggleStep(ToggleStep(st, surveyId), surveyId) == st
  {
    if surveyId in st.surveys {
      Admin.ToggleSpec(st.surveys[surveyId]);
    }
  }

  /** Deactivating an open survey closes both respondent routes to anyone who is not
      an administrator, without any further change of state. */
  lemma DeactivatingCloses(st: AppState, surveyId: nat, sectionNum: int, req: Request, emailSent: bool, newToken: string,
                           token: Option<string>, section: Option<int>)
    requires surveyId in st.surveys && st.surveys[surveyId].isActive && !AdminLoggedIn(st.session)
    ensures var st1 := ToggleStep(st, surveyId);
      && ShowSectionStep(st1, surveyId, sectionNum, req, emailSent, newToken) == (st1, RedirectHome)
      && TakeSurveyStep(st1, surveyId, token, section) == (st1, RedirectHome)
  {
    var st1 := ToggleStep(st, surveyId);
    assert Blocked(st1.surveys[surveyId], st1.session);
    RouteGuards(st1, surveyId, sectionNum, req, emailSent, newToken);
  }

  /** Activating a closed survey opens it to everyone. */
  lemma ActivatingOpens(st: AppState, surveyId: nat)
    requires surveyId in st.surveys && !st.surveys[surveyId].isActive
    ensures var st1 := ToggleStep(st, surveyId);
      surveyId in st1.surveys && !Blocked(st1.surveys[surveyId], st1.session)
  {
  }
}
