/** The section-by-section answering workflow of routes/take_survey.py over
    in-memory tables: the survey table (read only here), the response table
    (a response's id is its position), the answer table, and the respondent's
    session. Each route is a pure step function on `AppState`; the class
    `SurveyApp` performs the same steps by updating its fields in place. */
module Workflow {
  import opened Schema
  import opened Text
  import opened Ordering
  import opened Aggregate
  import Admin

  const ResumeTokenKey: string := "resume_token"
  const ResumeEmailKey: string := "resume_email"
  const AdminKey: string := "admin_logged_in"

  const SaveAction: string := "save"
  const NextAction: string := "next"
  const PreviousAction: string := "previous"
  const SubmitAction: string := "submit"

  /** A value stored in the session dictionary. */
  datatype SessionValue = Str(text: string) | Null | Flag(on: bool)

  predicate Truthy(v: SessionValue) {
    match v
    case Str(t) => t != []
    case Null => false
    case Flag(b) => b
  }

  /** The submitted form of a section page: the action button, the email field,
      and per question id the `question_<id>` and `elaboration_<id>` fields. */
  datatype Form = Form(action: Option<string>, email: Option<string>, choices: map<nat, string>, elaborations: map<nat, string>)

  datatype Request = Get | Post(form: Form)

  /** The resume link `take_survey?token=…&section=…`. */
  datatype ResumeLink = ResumeLink(surveyId: nat, token: Option<string>, section: int)

  /** What a route answers with. */
  datatype Page =
    | NotFound
    | RedirectHome
    | RedirectEntry(surveyId: nat)
    | RedirectSection(surveyId: nat, sectionNum: int)
    | RedirectThankYou
    | SectionPage(sectionNum: int, totalSections: nat, response: Option<nat>, savedEmail: SessionValue,
                  saveError: bool, resumeLink: Option<ResumeLink>, savedToEmail: Option<string>)

  datatype AppState = AppState(surveys: map<nat, Survey>, responses: seq<Response>, answers: seq<Answer>,
                               session: map<string, SessionValue>)

  predicate AdminLoggedIn(session: map<string, SessionValue>) {
    AdminKey in session && Truthy(session[AdminKey])
  }

  /** An inactive survey is closed to everyone but a logged-in administrator. */
  predicate Blocked(survey: Survey, session: map<string, SessionValue>) {
    !survey.isActive && !AdminLoggedIn(session)
  }

  /** `session.get('resume_token')` when it is a non-empty string. */
  function SessionToken(session: map<string, SessionValue>): Option<string> {
    if ResumeTokenKey in session && session[ResumeTokenKey].Str? && session[ResumeTokenKey].text != []
    then Some(session[ResumeTokenKey].text) else None
  }

  /** `session.get('resume_email', '')`. */
  function SavedEmail(session: map<string, SessionValue>): SessionValue {
    if ResumeEmailKey in session then session[ResumeEmailKey] else Str("")
  }

  function EmailValue(email: Option<string>): SessionValue {
    match email
    case Some(e) => Str(e)
    case None => Null
  }

  /** The lowest response id at or after `from` whose row satisfies `p` (a query's `.first()`). */
  function FirstMatch(responses: seq<Response>, p: Response -> bool, from: nat): (r: Option<nat>)
    requires from <= |responses|
    ensures r.Some? ==> from <= r.value < |responses| && p(responses[r.value])
                        && forall j :: from <= j < r.value ==> !p(responses[j])
    ensures r.None? ==> forall j :: from <= j < |responses| ==> !p(responses[j])
    decreases |responses| - from
  {
    if from == |responses| then None
    else if p(responses[from]) then Some(from)
    else FirstMatch(responses, p, from + 1)
  }

  /** `Response.query.filter_by(resume_token=token).first()`: the token alone decides. */
  function FindByToken(responses: seq<Response>, token: string): Option<nat> {
    FirstMatch(responses, (r: Response) => r.resumeToken == Some(token), 0)
  }

  predicate Resumable(r: Response, token: string, surveyId: nat) {
    r.resumeToken == Some(token) && r.surveyId == surveyId && !r.isComplete
  }

  /** `filter_by(resume_token=token, survey_id=survey_id, is_complete=False).first()`. */
  function FindResumable(responses: seq<Response>, token: string, surveyId: nat): Option<nat> {
    FirstMatch(responses, (r: Response) => Resumable(r, token, surveyId), 0)
  }

  function Ids(qs: seq<Question>): set<nat> {
    set q | q in qs :: q.id
  }

  /** `[q.id for q in section.questions]`. */
  function QuestionIds(section: Section): set<nat> {
    Ids(section.questions)
  }

  /** Whether the bulk delete of a section save removes this row. */
  predicate Replaced(a: Answer, responseId: nat, ids: set<nat>) {
    a.responseId == responseId && a.questionId in ids
  }

  /** The answer table after deleting this response's answers to the given questions. */
  function Unaffected(table: seq<Answer>, responseId: nat, ids: set<nat>): seq<Answer>
  {
    if table == [] then []
    else (if Replaced(table[0], responseId, ids) then [] else [table[0]]) + Unaffected(table[1..], responseId, ids)
  }

  /** `if choice:` — a choice was submitted and is not empty. */
  predicate Chosen(form: Form, questionId: nat) {
    questionId in form.choices && form.choices[questionId] != []
  }

  /** `elaboration_<id>` stripped, or None when it strips to nothing. */
  function ElaborationOf(form: Form, questionId: nat): Option<string> {
    var e := Strip(if questionId in form.elaborations then form.elaborations[questionId] else "");
    if e == [] then None else Some(e)
  }

  function RowFor(responseId: nat, q: Question, form: Form): seq<Answer> {
    if Chosen(form, q.id) then [Answer(responseId, q.id, form.choices[q.id], ElaborationOf(form, q.id))] else []
  }

  /** The rows a section save inserts, in question storage order. */
  function SectionRows(responseId: nat, qs: seq<Question>, form: Form): seq<Answer> {
    if qs == [] then []
    else SectionRows(responseId, qs[..|qs| - 1], form) + RowFor(responseId, qs[|qs| - 1], form)
  }

  lemma SectionRowsStep(responseId: nat, qs: seq<Question>, i: nat, form: Form)
    requires i < |qs|
    ensures SectionRows(responseId, qs[..i + 1], form) == SectionRows(responseId, qs[..i], form) + RowFor(responseId, qs[i], form)
  {
    var p := qs[..i + 1];
    assert p[..|p| - 1] == qs[..i];
  }

  /** Delete this response's answers to the section's questions, then insert the submitted ones. */
  function ReplaceSection(table: seq<Answer>, responseId: nat, section: Section, form: Form): seq<Answer> {
    Unaffected(table, responseId, QuestionIds(section)) + SectionRows(responseId, section.questions, form)
  }

  /** `save_section_answers`: when no response is given it creates one with a fresh
      token (and records the token in the session) but does not hand it back. */
  function SaveSection(st: AppState, surveyId: nat, section: Section, existing: Option<nat>, form: Form, newToken: string): AppState {
    match existing
    case Some(rid) => st.(answers := ReplaceSection(st.answers, rid, section, form))
    case None =>
      AppState(st.surveys,
               st.responses + [Response(surveyId, None, Some(newToken), false)],
               ReplaceSection(st.answers, |st.responses|, section, form),
               st.session[ResumeTokenKey := Str(newToken)])
  }

  /** The section page as a GET renders it. */
  function PlainPage(st: AppState, sectionNum: int, total: nat, existing: Option<nat>): Page {
    SectionPage(sectionNum, total, existing, SavedEmail(st.session), false, None, None)
  }

  /** The response a section route works on: the one the session's token names, if any. */
  function CurrentResponse(st: AppState): (r: Option<nat>)
    ensures r.Some? ==> r.value < |st.responses|
  {
    match SessionToken(st.session)
    case Some(t) => FindByToken(st.responses, t)
    case None => None
  }

  /** `show_section`. `emailSent` is what the mail collaborator reported; `newToken`
      is the token the random generator would produce if one is needed. */
  function ShowSectionStep(st: AppState, surveyId: nat, sectionNum: int, req: Request, emailSent: bool, newToken: string): (AppState, Page) {
    if surveyId !in st.surveys then (st, NotFound)
    else
      var survey := st.surveys[surveyId];
      if Blocked(survey, st.session) then (st, RedirectHome)
      else
        var sections := OrderedSections(survey);
        var total := |sections|;
        if sectionNum < 1 || sectionNum > total then (st, RedirectEntry(surveyId))
        else
          var current := sections[sectionNum - 1];
          var existing := CurrentResponse(st);
          match req
          case Get => (st, PlainPage(st, sectionNum, total, existing))
          case Post(form) =>
            if form.action == Some(SaveAction)
            then SaveForLater(st, survey.id, surveyId, sectionNum, total, current, existing, form, emailSent, newToken)
            else Navigate(st, survey.id, surveyId, sectionNum, total, current, existing, form, newToken)
  }

  /** The `save` action's record of a non-blank email: on the session's response and in
      the session, or on a new response carrying the fresh token, recorded in the session too. */
  function RecordEmail(st: AppState, ownerId: nat, existing: Option<nat>, email: string, newToken: string): AppState
    requires existing.Some? ==> existing.value < |st.responses|
  {
    match existing
    case Some(rid) =>
      st.(responses := st.responses[rid := st.responses[rid].(email := Some(email))],
          session := st.session[ResumeEmailKey := Str(email)])
    case None =>
      st.(responses := st.responses + [Response(ownerId, Some(email), Some(newToken), false)],
          session := st.session[ResumeTokenKey := Str(newToken)][ResumeEmailKey := Str(email)])
  }

  /** The `save` action: a blank email is refused with nothing changed; otherwise the
      email is recorded on the (possibly new) response and in the session, the section
      is saved, and the page shows the resume link. */
  function SaveForLater(st: AppState, ownerId: nat, surveyId: nat, sectionNum: int, total: nat, current: Section,
                        existing: Option<nat>, form: Form, emailSent: bool, newToken: string): (AppState, Page)
    requires existing.Some? ==> existing.value < |st.responses|
  {
    var email := Strip(form.email.GetOr(""));
    if email == [] then
      (st, SectionPage(sectionNum, total, existing, Str(""), true, None, None))
    else
      var rid := if existing.Some? then existing.value else |st.responses|;
      var st1 := RecordEmail(st, ownerId, existing, email, newToken);
      var st2 := SaveSection(st1, ownerId, current, Some(rid), form, newToken);
      (st2, SectionPage(sectionNum, total, Some(rid), Str(email), false,
                        Some(ResumeLink(surveyId, st1.responses[rid].resumeToken, sectionNum)),
                        if emailSent then Some(email) else None))
  }

  /** Any other action saves the section first, then moves on, finishes, or re-renders. */
  function Navigate(st: AppState, ownerId: nat, surveyId: nat, sectionNum: int, total: nat, current: Section,
                    existing: Option<nat>, form: Form, newToken: string): (AppState, Page)
    requires existing.Some? ==> existing.value < |st.responses|
  {
    var st1 := SaveSection(st, ownerId, current, existing, form, newToken);
    if form.action == Some(NextAction) then (st1, RedirectSection(surveyId, sectionNum + 1))
    else if form.action == Some(PreviousAction) then (st1, RedirectSection(surveyId, sectionNum - 1))
    else if form.action == Some(SubmitAction) then
      var responses :=
        if existing.Some? then st1.responses[existing.value := st1.responses[existing.value].(isComplete := true)]
        else st1.responses + [Response(ownerId, None, None, true)];
      (st1.(responses := responses, session := st1.session - {ResumeTokenKey, ResumeEmailKey}), RedirectThankYou)
    else (st1, PlainPage(st1, sectionNum, total, existing))
  }

  /** `take_survey`: restore the session from a resume token, then go to the section
      named in the link (section 1 when there is none). */
  function TakeSurveyStep(st: AppState, surveyId: nat, token: Option<string>, section: Option<int>): (AppState, Page) {
    if surveyId !in st.surveys then (st, NotFound)
    else if Blocked(st.surveys[surveyId], st.session) then (st, RedirectHome)
    else
      var found := if token.Some? && token.value != [] then FindResumable(st.responses, token.value, surveyId) else None;
      var st1 :=
        if found.Some? then
          st.(session := st.session[ResumeTokenKey := Str(token.value)][ResumeEmailKey := EmailValue(st.responses[found.value].email)])
        else st;
      (st1, RedirectSection(surveyId, section.GetOr(1)))
  }

  /** `toggle_survey`: an existing survey's active flag flips; nothing else changes. */
  function ToggleStep(st: AppState, surveyId: nat): AppState {
    if surveyId in st.surveys then st.(surveys := st.surveys[surveyId := Admin.Toggle(st.surveys[surveyId])])
    else st
  }

  /** The application's tables and the respondent's session, updated in place by the routes. */
  class SurveyApp {
    var surveys: map<nat, Survey>
    var responses: seq<Response>
    var answers: seq<Answer>
    var session: map<string, SessionValue>

    function State(): AppState
      reads this
    {
      AppState(surveys, responses, answers, session)
    }

    constructor (surveys: map<nat, Survey>)
      ensures State() == AppState(surveys, [], [], map[])
    {
      this.surveys := surveys;
      responses := [];
      answers := [];
      session := map[];
    }

    /** The insert loop of `save_section_answers`: one row per chosen question, in storage order. */
    method InsertRows(rid: nat, qs: seq<Question>, form: Form)
      modifies this
      ensures answers == old(answers) + SectionRows(rid, qs, form)
      ensures surveys == old(surveys) && responses == old(responses) && session == old(session)
    {
      ghost var kept := answers;
      assert qs[..0] == [];
      for i := 0 to |qs|
        invariant answers == kept + SectionRows(rid, qs[..i], form)
        invariant surveys == old(surveys) && responses == old(responses) && session == old(session)
      {
        ghost var prev, done := answers, SectionRows(rid, qs[..i], form);
        var q := qs[i];
        ghost var row := RowFor(rid, q, form);
        if Chosen(form, q.id) {
          answers := answers + [Answer(rid, q.id, form.choices[q.id], ElaborationOf(form, q.id))];
        }
        assert answers == prev + row;
        AppendAssoc(kept, done, row);
        SectionRowsStep(rid, qs, i, form);
      }
      assert qs[..|qs|] == qs;
    }

    /** `save_section_answers`. */
    method SaveSectionAnswers(surveyId: nat, section: Section, existing: Option<nat>, form: Form, newToken: string)
      modifies this
      ensures State() == SaveSection(old(State()), surveyId, section, existing, form, newToken)
    {
      var rid: nat;
      if existing.None? {
        rid := |responses|;
        responses := responses + [Response(surveyId, None, Some(newToken), false)];
        session := session[ResumeTokenKey := Str(newToken)];
      } else {
        rid := existing.value;
      }
      ghost var saved := State();
      answers := Unaffected(answers, rid, QuestionIds(section));
      InsertRows(rid, section.questions, form);
      assert answers == ReplaceSection(saved.answers, rid, section, form);
    }

    /** `show_section`. */
    method ShowSection(surveyId: nat, sectionNum: int, req: Request, emailSent: bool, newToken: string) returns (page: Page)
      modifies this
      ensures (State(), page) == ShowSectionStep(old(State()), surveyId, sectionNum, req, emailSent, newToken)
    {
      if surveyId !in surveys {
        return NotFound;
      }
      var survey := surveys[surveyId];
      if !survey.isActive && !(AdminKey in session && Truthy(session[AdminKey])) {
        return RedirectHome;
      }
      var sections := Ordering.SortBy(survey.sections, SectionKey);
      var total := |sections|;
      if sectionNum < 1 || sectionNum > total {
        return RedirectEntry(surveyId);
      }
      var current := sections[sectionNum - 1];
      var existing: Option<nat> := None;
      if ResumeTokenKey in session && session[ResumeTokenKey].Str? && session[ResumeTokenKey].text != [] {
        existing := FindByToken(responses, session[ResumeTokenKey].text);
      }
      if req.Get? {
        return SectionPage(sectionNum, total, existing, SavedEmail(session), false, None, None);
      }
      if req.form.action == Some(SaveAction) {
        page := SaveForLaterPost(survey.id, surveyId, sectionNum, total, current, existing, req.form, emailSent, newToken);
      } else {
        page := NavigatePost(survey.id, surveyId, sectionNum, total, current, existing, req.form, newToken);
      }
    }

    method SaveForLaterPost(ownerId: nat, surveyId: nat, sectionNum: int, total: nat, current: Section,
                            existing: Option<nat>, form: Form, emailSent: bool, newToken: string) returns (page: Page)
      requires existing.Some? ==> existing.value < |responses|
      modifies this
      ensures (State(), page) == SaveForLater(old(State()), ownerId, surveyId, sectionNum, total, current, existing, form, emailSent, newToken)
    {
      ghost var st := State();
      var email := Strip(form.email.GetOr(""));
      if email == [] {
        return SectionPage(sectionNum, total, existing, Str(""), true, None, None);
      }
      var rid: nat;
      if existing.None? {
        rid := |responses|;
        responses := responses + [Response(ownerId, Some(email), Some(newToken), false)];
        session := session[ResumeTokenKey := Str(newToken)];
        session := session[ResumeEmailKey := Str(email)];
      } else {
        rid := existing.value;
        responses := responses[rid := responses[rid].(email := Some(email))];
        session := session[ResumeEmailKey := Str(email)];
      }
      assert State() == RecordEmail(st, ownerId, existing, email, newToken);
      var link := ResumeLink(surveyId, responses[rid].resumeToken, sectionNum);
      SaveSectionAnswers(ownerId, current, Some(rid), form, newToken);
      page := SectionPage(sectionNum, total, Some(rid), Str(email), false, Some(link),
                          if emailSent then Some(email) else None);
    }

    method NavigatePost(ownerId: nat, surveyId: nat, sectionNum: int, total: nat, current: Section,
                        existing: Option<nat>, form: Form, newToken: string) returns (page: Page)
      requires existing.Some? ==> existing.value < |responses|
      modifies this
      ensures (State(), page) == Navigate(old(State()), ownerId, surveyId, sectionNum, total, current, existing, form, newToken)
    {
      SaveSectionAnswers(ownerId, current, existing, form, newToken);
      if form.action == Some(NextAction) {
        page := RedirectSection(surveyId, sectionNum + 1);
      } else if form.action == Some(PreviousAction) {
        page := RedirectSection(surveyId, sectionNum - 1);
      } else if form.action == Some(SubmitAction) {
        if existing.None? {
          responses := responses + [Response(ownerId, None, None, true)];
        } else {
          responses := responses[existing.value := responses[existing.value].(isComplete := true)];
        }
        session := session - {ResumeTokenKey, ResumeEmailKey};
        page := RedirectThankYou;
      } else {
        page := SectionPage(sectionNum, total, existing, SavedEmail(session), false, None, None);
      }
    }

    /** `take_survey`. */
    method TakeSurvey(surveyId: nat, token: Option<string>, section: Option<int>) returns (page: Page)
      modifies this
      ensures (State(), page) == TakeSurveyStep(old(State()), surveyId, token, section)
    {
      if surveyId !in surveys {
        return NotFound;
      }
      if !surveys[surveyId].isActive && !(AdminKey in session && Truthy(session[AdminKey])) {
        return RedirectHome;
      }
      if token.Some? && token.value != [] {
        var found := FindResumable(responses, token.value, surveyId);
        if found.Some? {
          session := session[ResumeTokenKey := Str(token.value)];
          session := session[ResumeEmailKey := EmailValue(responses[found.value].email)];
        }
      }
      return RedirectSection(surveyId, section.GetOr(1));
    }

    /** `toggle_survey`; `found` is false where the route answers 404. */
    method ToggleSurvey(surveyId: nat) returns (found: bool)
      modifies this
      ensures found == (surveyId in old(surveys))
      ensures State() == ToggleStep(old(State()), surveyId)
    {
      found := surveyId in surveys;
      if found {
        var survey := surveys[surveyId];
        surveys := surveys[surveyId := survey.(isActive := !survey.isActive)];
      }
    }
  }
}
